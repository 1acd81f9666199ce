/** What `RenderOutput` guarantees: one header chosen by the first entry shown, the rows of
    the selected entries in order, the filter, the highlighting rule, and that every cell
    can be read back into the value it shows. */
module RenderFacts {
  import opened Wrappers
  import opened GoInt
  import opened GoStrings
  import opened Ls
  import opened LsFacts
  import opened Render

  /** The header is appended exactly once when any entry is shown and never otherwise; it
      and the separate-rows option are those of the first entry shown, and the body is the
      rows of all shown entries in iteration order. */
  lemma {:induction false} RenderedShape(rows: map<string, RowSet>, keys: seq<string>)
    requires forall k :: k in keys ==> k in rows
    ensures Rendered(rows, keys).headers == if keys == [] then [] else [HeaderOf(rows[keys[0]])]
    ensures Rendered(rows, keys).separateRows == (keys != [] && rows[keys[0]].Merged?)
    ensures Rendered(rows, keys).body == Body(rows, keys)
    decreases |keys|
  {
    if keys != [] {
      var front := keys[..|keys| - 1];
      RenderedShape(rows, front);
      if front != [] {
        assert front[0] == keys[0];
      }
    }
  }

  /** An empty filter shows every key. */
  lemma {:induction false} SelectedAll(order: seq<string>)
    ensures Selected(order, "") == order
    decreases |order|
  {
    if order != [] {
      SelectedAll(order[..|order| - 1]);
    }
  }

  /** A non-empty filter shows the one key equal to it, if the map has it. */
  lemma {:induction false} SelectedOne(order: seq<string>, service: string)
    requires service != ""
    requires forall i, j :: 0 <= i < j < |order| ==> order[i] != order[j]
    ensures Selected(order, service) == if service in order then [service] else []
    decreases |order|
  {
    if order != [] {
      var front := order[..|order| - 1];
      SelectedOne(front, service);
      assert order == front + [order[|order| - 1]];
      if order[|order| - 1] == service {
        assert service !in front by {
          forall i | 0 <= i < |front| ensures front[i] != service {
            assert front[i] == order[i];
          }
        }
      }
    }
  }

  /** With a service filter, the table shows exactly that service's entry (under its own
      header), or nothing at all when the map does not hold it. */
  lemma FilteredTable(rows: map<string, RowSet>, service: string, order: seq<string>)
    requires service != ""
    requires forall i, j :: 0 <= i < j < |order| ==> order[i] != order[j]
    requires forall k :: k in rows <==> k in order
    ensures var t := Rendered(rows, Selected(order, service));
      if service in rows then
        t == Table([HeaderOf(rows[service])], rows[service].Merged?, EntryCells(rows[service]))
      else t == Table([], false, [])
  {
    SelectedOne(order, service);
    var keys := Selected(order, service);
    RenderedShape(rows, keys);
    if service in rows {
      assert keys[..0] == [];
    }
  }

  /** Without a filter, the body holds the rows of every entry in iteration order. */
  lemma ShowsAll(rows: map<string, RowSet>, order: seq<string>)
    requires forall k :: k in rows <==> k in order
    ensures Rendered(rows, Selected(order, "")).body == Body(rows, order)
    ensures |Rendered(rows, Selected(order, "")).headers| == if rows == map[] then 0 else 1
  {
    SelectedAll(order);
    RenderedShape(rows, order);
    if rows != map[] {
      var k :| k in rows;
      assert order != [];
    }
  }

  lemma StatusTextInjective(a: ServiceStatus, b: ServiceStatus)
    ensures StatusText(a) == StatusText(b) <==> a == b
  {
    assert StatusText(Healthy)[0] != StatusText(Unhealthy)[0];
  }

  /** A default row is highlighted exactly when its status is Unhealthy. */
  lemma DefaultHighlighted(r: DefaultRow)
    ensures Highlighted(DefaultCells(r)) <==> r.status == Unhealthy
  {
    StatusTextInjective(r.status, Unhealthy);
  }

  /** A merged row is never highlighted: its fifth cell is the replica count, a number. */
  lemma MergedNeverHighlighted(r: MergedRow, sep: string)
    ensures !Highlighted(MergedCells(r, sep))
  {
    var cell := FormatInt(r.replicas);
    assert cell[0] == '-' || IsDigit(cell[0]);
    assert StatusText(Unhealthy)[0] == 'U';
  }

  /** The cells of a default row give back the row: ip, service, the raw texts and the status. */
  lemma DefaultCellsDecode(r: DefaultRow, status: ServiceStatus)
    ensures var c := DefaultCells(r);
      c[0] == r.ip && c[1] == r.name && c[2] == r.cpu && c[3] == r.mem &&
      (c[4] == StatusText(status) <==> r.status == status)
  {
    StatusTextInjective(r.status, status);
  }

  /** The cells of a merged row read back into the row: splitting the first at the separator
      gives the IPs, and the numeric cells parse to the averages and the replica count. */
  lemma MergedCellsDecode(r: MergedRow, sep: char)
    requires r.ips != [] && forall i :: 0 <= i < |r.ips| ==> sep !in r.ips[i]
    requires IsInt32(r.cpuAvg) && IsInt32(r.memAvg) && IsInt32(r.replicas)
    ensures var c := MergedCells(r, [sep]);
      Split(c[0], sep) == r.ips && c[1] == r.name &&
      ParsePercent(c[2]) == Some(r.cpuAvg) && ParsePercent(c[3]) == Some(r.memAvg) &&
      Atoi(c[4]) == Some(r.replicas)
  {
    SplitJoin(r.ips, sep);
    ParsePercentOfText(FormatInt(r.cpuAvg) + "%", r.cpuAvg);
    ParsePercentOfText(FormatInt(r.memAvg) + "%", r.memAvg);
    AtoiFormatInt(r.replicas);
  }
}
