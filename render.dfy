/** The static table of `RenderOutput` (pkg/render.go): the service filter, the header chosen
    once by the first entry shown, and the text of each row. Go's map iteration order is the
    parameter `order`; the table writer is modelled by the rows it is given. */
module Render {
  import opened GoStrings
  import opened Ls

  /** `statusMap`. */
  function StatusText(s: ServiceStatus): string
  {
    match s
    case Healthy => "Healthy"
    case Unhealthy => "Unhealthy"
  }

  const DefaultHeader: seq<string> := ["IP", "Service", "Cpu", "Memory", "Status"]
  const MergedHeader: seq<string> := ["IPs", "Service", "Cpu_Avg", "Memory_Avg", "Replicas"]

  /** `strconv.FormatInt(int64(n), 10) + "%"`. */
  function PercentText(n: int): string
  {
    FormatInt(n) + "%"
  }

  /** The cells of one default row: ip, service, the raw cpu and memory texts, the status. */
  function DefaultCells(r: DefaultRow): seq<string>
  {
    [r.ip, r.name, r.cpu, r.mem, StatusText(r.status)]
  }

  /** The cells of a merged row; `sep` joins the IPs ("\n" in the static table, ", " in the
      live view). */
  function MergedCells(r: MergedRow, sep: string): seq<string>
  {
    [Join(r.ips, sep), r.name, PercentText(r.cpuAvg), PercentText(r.memAvg), FormatInt(r.replicas)]
  }

  function DefaultRowsCells(rows: seq<DefaultRow>): (cells: seq<seq<string>>)
    ensures |cells| == |rows|
    ensures forall i :: 0 <= i < |rows| ==> cells[i] == DefaultCells(rows[i])
  {
    seq(|rows|, i requires 0 <= i < |rows| => DefaultCells(rows[i]))
  }

  /** The table rows one map entry contributes. */
  function EntryCells(rs: RowSet): seq<seq<string>>
  {
    match rs
    case DefaultRows(rows) => DefaultRowsCells(rows)
    case Merged(row) => [MergedCells(row, "\n")]
  }

  function HeaderOf(rs: RowSet): seq<string>
  {
    if rs.Merged? then MergedHeader else DefaultHeader
  }

  /** The row painter: a row is shown red exactly when its fifth cell reads "Unhealthy". */
  predicate Highlighted(cells: seq<string>)
  {
    |cells| > 4 && cells[4] == StatusText(Unhealthy)
  }

  /** What the table writer has been given: the header rows, the separate-rows option and
      the body rows, each in the order they were appended. */
  datatype Table = Table(headers: seq<seq<string>>, separateRows: bool, body: seq<seq<string>>)

  /** The keys the loop does not skip, in iteration order. */
  function Selected(order: seq<string>, service: string): (keys: seq<string>)
    ensures |keys| <= |order|
    ensures forall k :: k in keys ==> k in order
    decreases |order|
  {
    if order == [] then []
    else
      var k := order[|order| - 1];
      Selected(order[..|order| - 1], service) + (if service != "" && k != service then [] else [k])
  }

  /** One iteration over a key that is not filtered out: the first entry shown appends its
      header (and, for a merged entry, turns on separate rows); every entry appends its rows. */
  function Show(t: Table, rs: RowSet): Table
  {
    var t' := if t.headers != [] then t
              else Table([HeaderOf(rs)], rs.Merged?, t.body);
    t'.(body := t'.body + EntryCells(rs))
  }

  /** The table after the loop has gone through `keys` (the keys that pass the filter). */
  function Rendered(rows: map<string, RowSet>, keys: seq<string>): Table
    requires forall k :: k in keys ==> k in rows
    decreases |keys|
  {
    if keys == [] then Table([], false, [])
    else Show(Rendered(rows, keys[..|keys| - 1]), rows[keys[|keys| - 1]])
  }

  /** The body rows of the entries for `keys`, in order. */
  function Body(rows: map<string, RowSet>, keys: seq<string>): seq<seq<string>>
    requires forall k :: k in keys ==> k in rows
    decreases |keys|
  {
    if keys == [] then [] else Body(rows, keys[..|keys| - 1]) + EntryCells(rows[keys[|keys| - 1]])
  }

  /** One more key of the iteration order: skipped by the filter, or shown. */
  lemma SelectedSnoc(rows: map<string, RowSet>, order: seq<string>, service: string, i: nat)
    requires i < |order| && forall k :: k in order ==> k in rows
    ensures forall k :: k in Selected(order[..i], service) ==> k in rows
    ensures forall k :: k in Selected(order[..i + 1], service) ==> k in rows
    ensures Rendered(rows, Selected(order[..i + 1], service)) ==
      if service != "" && order[i] != service then Rendered(rows, Selected(order[..i], service))
      else Show(Rendered(rows, Selected(order[..i], service)), rows[order[i]])
  {
    assert order[..i + 1][..i] == order[..i];
    var keys := Selected(order[..i], service);
    assert forall k :: k in keys ==> k in order[..i];
    var keys' := Selected(order[..i + 1], service);
    if !(service != "" && order[i] != service) {
      assert keys' == keys + [order[i]];
      assert keys'[..|keys'| - 1] == keys && keys'[|keys'| - 1] == order[i];
    } else {
      assert keys' == keys;
    }
  }

  /** The inner loop over the default rows of one entry. */
  method AppendDefaultRows(body: seq<seq<string>>, r: seq<DefaultRow>) returns (body': seq<seq<string>>)
    ensures body' == body + DefaultRowsCells(r)
  {
    body' := body;
    for j := 0 to |r|
      invariant body' == body + DefaultRowsCells(r[..j])
    {
      assert DefaultRowsCells(r[..j + 1]) == DefaultRowsCells(r[..j]) + [DefaultCells(r[j])];
      body' := body' + [DefaultCells(r[j])];
    }
    assert r[..|r|] == r;
  }

  /** The body of the loop for a key that passes the filter: on the first such key the
      header (and, for a merged entry, the separate-rows option) is set, then the entry's
      rows are appended. */
  method ShowEntry(init: bool, headers: seq<seq<string>>, separateRows: bool, body: seq<seq<string>>, rs: RowSet)
    returns (init': bool, headers': seq<seq<string>>, separateRows': bool, body': seq<seq<string>>)
    requires init <==> headers != []
    requires !init ==> !separateRows
    ensures init' && headers' != []
    ensures Table(headers', separateRows', body') == Show(Table(headers, separateRows, body), rs)
  {
    init', headers', separateRows' := init, headers, separateRows;
    match rs
    case DefaultRows(r) =>
      if !init' {
        headers' := headers' + [DefaultHeader];
        init' := true;
      }
      body' := AppendDefaultRows(body, r);
    case Merged(r) =>
      if !init' {
        headers' := headers' + [MergedHeader];
        separateRows' := true;
        init' := true;
      }
      body' := body + [MergedCells(r, "\n")];
  }

  /** `RenderOutput`: the loop over the map with the `init` flag. */
  method RenderOutput(rows: map<string, RowSet>, service: string, order: seq<string>) returns (t: Table)
    requires forall i, j :: 0 <= i < j < |order| ==> order[i] != order[j]
    requires forall k :: k in rows <==> k in order
    ensures t == Rendered(rows, Selected(order, service))
  {
    var init := false;
    var headers: seq<seq<string>> := [];
    var separateRows := false;
    var body: seq<seq<string>> := [];
    for i := 0 to |order|
      invariant forall k :: k in Selected(order[..i], service) ==> k in rows
      invariant Table(headers, separateRows, body) == Rendered(rows, Selected(order[..i], service))
      invariant init <==> headers != []
      invariant !init ==> !separateRows
    {
      SelectedSnoc(rows, order, service, i);
      var k := order[i];
      if !(service != "" && k != service) {
        init, headers, separateRows, body := ShowEntry(init, headers, separateRows, body, rows[k]);
      }
    }
    assert order[..|order|] == order;
    return Table(headers, separateRows, body);
  }
}
