/**
 * The editor page's own state and text builders.
 *
 * The page keeps, per pane (`top` and `bottom`), the list of open tabs, the
 * pane's active file and its editor buffer, plus the page-wide
 * `currentActiveFile` and the last data set shown in the table. Around this
 * state sit three string builders: the line-number gutter, the data table
 * and the CSV download.
 *
 * Server round trips are parameters: a `loaded` or `ok` argument says what
 * the response was, and the user's answer to a confirmation dialog is an
 * argument too.
 */
module Editor {
  import opened Text

  // ---------------------------------------------------------------- tab lists

  /** `xs.filter(f => f !== x)` */
  function Remove(xs: seq<string>, x: string): (r: seq<string>)
    ensures |r| <= |xs|
  {
    if |xs| == 0 then []
    else if xs[0] == x then Remove(xs[1..], x)
    else [xs[0]] + Remove(xs[1..], x)
  }

  /** `if (!xs.includes(x)) xs.push(x)` */
  function AddOnce(xs: seq<string>, x: string): (ys: seq<string>) {
    if x in xs then xs else xs + [x]
  }

  /** `xs[0] || null`: the first entry, unless there is none or it is the (falsy) empty name. */
  function FirstTruthy(xs: seq<string>): (first: Option<string>) {
    if |xs| > 0 && xs[0] != "" then Some(xs[0]) else None
  }

  predicate NoDuplicates(xs: seq<string>) {
    forall i, j :: 0 <= i < j < |xs| ==> xs[i] != xs[j]
  }

  /** Filtering keeps exactly the other names. */
  lemma {:induction false} RemoveMembers(xs: seq<string>, x: string, y: string)
    ensures y in Remove(xs, x) <==> y in xs && y != x
  {
    if |xs| > 0 {
      RemoveMembers(xs[1..], x, y);
      assert xs == [xs[0]] + xs[1..];
    }
  }

  /** Filtering works piecewise, so the names that stay keep their order. */
  lemma {:induction false} RemoveAppend(xs: seq<string>, ys: seq<string>, x: string)
    ensures Remove(xs + ys, x) == Remove(xs, x) + Remove(ys, x)
  {
    if |xs| > 0 {
      assert (xs + ys)[1..] == xs[1..] + ys;
      RemoveAppend(xs[1..], ys, x);
    } else {
      assert xs + ys == ys;
    }
  }

  /** Filtering out a name that is not there changes nothing. */
  lemma {:induction false} RemoveAbsent(xs: seq<string>, x: string)
    requires x !in xs
    ensures Remove(xs, x) == xs
  {
    if |xs| > 0 {
      assert xs[0] != x;
      RemoveAbsent(xs[1..], x);
      assert [xs[0]] + xs[1..] == xs;
    }
  }

  lemma {:induction false} RemoveNoDuplicates(xs: seq<string>, x: string)
    requires NoDuplicates(xs)
    ensures NoDuplicates(Remove(xs, x))
  {
    if |xs| > 0 {
      var rest := xs[1..];
      assert NoDuplicates(rest) by {
        forall i, j | 0 <= i < j < |rest| ensures rest[i] != rest[j] {
          assert rest[i] == xs[i + 1] && rest[j] == xs[j + 1];
        }
      }
      RemoveNoDuplicates(rest, x);
      if xs[0] != x {
        assert xs[0] !in rest by {
          forall j | 0 <= j < |rest| ensures rest[j] != xs[0] {
            assert rest[j] == xs[j + 1];
          }
        }
        RemoveMembers(rest, x, xs[0]);
        var r := Remove(rest, x);
        forall i, j | 0 <= i < j < |[xs[0]] + r| ensures ([xs[0]] + r)[i] != ([xs[0]] + r)[j] {
          if i == 0 {
            assert ([xs[0]] + r)[j] == r[j - 1];
          } else {
            assert ([xs[0]] + r)[i] == r[i - 1] && ([xs[0]] + r)[j] == r[j - 1];
          }
        }
      }
    }
  }

  /**
   * A name added to a list without repeats is in it exactly once, at the end
   * when it was not there before, and nothing else changes.
   */
  lemma AddOnceSpec(xs: seq<string>, x: string)
    requires NoDuplicates(xs)
    ensures NoDuplicates(AddOnce(xs, x))
    ensures x in AddOnce(xs, x)
    ensures forall i, j :: 0 <= i < j < |AddOnce(xs, x)| ==> AddOnce(xs, x)[i] != x || AddOnce(xs, x)[j] != x
    ensures x !in xs ==> AddOnce(xs, x) == xs + [x]
    ensures x in xs ==> AddOnce(xs, x) == xs
  {
    if x !in xs {
      var ys := xs + [x];
      forall i, j | 0 <= i < j < |ys| ensures ys[i] != ys[j] {
        if j == |xs| {
          assert ys[i] == xs[i];
        } else {
          assert ys[i] == xs[i] && ys[j] == xs[j];
        }
      }
    }
  }

  // ---------------------------------------------------------------- the two panes

  datatype Pane = Top | Bottom

  function Other(pane: Pane): (o: Pane) {
    if pane == Top then Bottom else Top
  }

  /** `openFiles[pane]`, `activeFile[pane]` and the value of the pane's editor. */
  datatype PaneState = PaneState(open: seq<string>, active: Option<string>, buffer: string)

  const Closed := PaneState([], None, "")

  /** The page's globals `openFiles`, `activeFile`, `currentActiveFile` and `currentRawData`. */
  class Workbench {
    var top: PaneState
    var bottom: PaneState
    var current: Option<string>
    var rawData: Json

    /** The state the page script starts in. */
    constructor()
      ensures top == Closed && bottom == Closed && current == None && rawData == Arr([])
      ensures Valid()
    {
      top, bottom := Closed, Closed;
      current := None;
      rawData := Arr([]);
    }

    function Tabs(pane: Pane): (s: PaneState)
      reads this
    {
      if pane == Top then top else bottom
    }

    /** Neither pane lists a file twice. */
    predicate Valid()
      reads this
    {
      NoDuplicates(top.open) && NoDuplicates(bottom.open)
    }

    method SetTabs(pane: Pane, s: PaneState)
      modifies this
      ensures Tabs(pane) == s && Tabs(Other(pane)) == old(Tabs(Other(pane)))
      ensures current == old(current) && rawData == old(rawData)
    {
      if pane == Top {
        top := s;
      } else {
        bottom := s;
      }
    }

    /**
     * `loadFileToPane`: after a successful load the file is listed once in
     * the pane, is the pane's active file and the page's current file, and
     * its content is in the pane's editor. A failed load changes nothing.
     */
    method LoadFileToPane(filename: string, pane: Pane, loaded: Option<string>)
      requires Valid()
      modifies this
      ensures Valid()
      ensures loaded.None? ==> Tabs(pane) == old(Tabs(pane)) && current == old(current)
      ensures loaded.Some? ==>
        && Tabs(pane) == PaneState(AddOnce(old(Tabs(pane).open), filename), Some(filename), loaded.value)
        && current == Some(filename)
      ensures Tabs(Other(pane)) == old(Tabs(Other(pane))) && rawData == old(rawData)
    {
      if loaded.None? {
        return;
      }
      var open := Tabs(pane).open;
      AddOnceSpec(open, filename);
      if filename !in open {
        open := open + [filename];
      }
      SetTabs(pane, PaneState(open, Some(filename), loaded.value));
      current := Some(filename);
    }

    /**
     * A click on a name in the file list: the name becomes the current file
     * before the load is even attempted, so after a failed load the current
     * file may be one that no pane shows.
     */
    method OpenFromList(file: string, loaded: Option<string>)
      requires Valid()
      modifies this
      ensures Valid()
      ensures current == Some(file)
      ensures loaded.None? ==> top == old(top)
      ensures loaded.Some? ==> top == PaneState(AddOnce(old(top).open, file), Some(file), loaded.value)
      ensures bottom == old(bottom) && rawData == old(rawData)
    {
      current := Some(file);
      LoadFileToPane(file, Top, loaded);
    }

    /**
     * The effective `closeTab`: the name leaves the pane's list. When it was
     * the active tab, the first remaining tab becomes active and is loaded
     * (with `loaded` as the server's answer), or, with none left, the pane
     * has no active file and an empty editor.
     */
    method CloseTab(filename: string, pane: Pane, loaded: Option<string>)
      requires Valid()
      modifies this
      ensures Valid()
      ensures var before := old(Tabs(pane));
        var open := Remove(before.open, filename);
        if before.active != Some(filename) then
          Tabs(pane) == before.(open := open) && current == old(current)
        else if FirstTruthy(open).None? then
          Tabs(pane) == PaneState(open, None, "") && current == old(current)
        else if loaded.None? then
          Tabs(pane) == PaneState(open, FirstTruthy(open), before.buffer) && current == old(current)
        else
          Tabs(pane) == PaneState(open, FirstTruthy(open), loaded.value) && current == FirstTruthy(open)
      ensures Tabs(Other(pane)) == old(Tabs(Other(pane))) && rawData == old(rawData)
    {
      var before := Tabs(pane);
      var open := Remove(before.open, filename);
      RemoveNoDuplicates(before.open, filename);
      if before.active == Some(filename) {
        var next := FirstTruthy(open);
        SetTabs(pane, before.(open := open, active := next));
        if next.Some? {
          assert next.value in open;
          LoadFileToPane(next.value, pane, loaded);
        } else {
          SetTabs(pane, PaneState(open, None, ""));
        }
      } else {
        SetTabs(pane, before.(open := open));
      }
    }

    /** `newFile`: the top editor is emptied. */
    method NewFile()
      modifies this
      ensures top == old(top).(buffer := "") && bottom == old(bottom)
      ensures current == old(current) && rawData == old(rawData)
    {
      top := top.(buffer := "");
    }

    /**
     * The effective `deleteFilePrompt`: with a current file, a confirmed
     * dialog and a successful request, the file leaves both panes' lists and
     * there is no current file any more. The panes' active files are left as
     * they were.
     */
    method DeleteFilePrompt(confirmed: bool, ok: bool)
      requires Valid()
      modifies this
      ensures Valid()
      ensures if old(current).None? || old(current).value == "" || !confirmed || !ok then
          top == old(top) && bottom == old(bottom) && current == old(current)
        else
          && top == PaneState(Remove(old(top).open, old(current).value), old(top).active, "")
          && bottom == old(bottom).(open := Remove(old(bottom).open, old(current).value))
          && current == None
      ensures rawData == old(rawData)
    {
      if current.None? || current.value == "" {
        return;
      }
      if !confirmed || !ok {
        return;
      }
      var gone := current.value;
      RemoveNoDuplicates(top.open, gone);
      RemoveNoDuplicates(bottom.open, gone);
      top := top.(open := Remove(top.open, gone));
      bottom := bottom.(open := Remove(bottom.open, gone));
      current := None;
      NewFile();
    }

    /** `updateLineNumbers`: the gutter for the pane's editor, one number per line. */
    method UpdateLineNumbers(pane: Pane) returns (numStr: string)
      ensures numStr == Gutter(|Split(Tabs(pane).buffer, '\n')|)
    {
      var lines := |Split(Tabs(pane).buffer, '\n')|;
      numStr := "";
      var i := 1;
      while i <= lines
        invariant 1 <= i <= lines + 1
        invariant numStr == Gutter(i - 1)
      {
        numStr := numStr + NatToString(i) + "<br>";
        i := i + 1;
      }
    }

    /** `renderTable`: the data set is remembered for the CSV export, and the table is built. */
    method RenderTable(chartData: Json) returns (out: Rendered)
      modifies this
      ensures rawData == chartData && out == Markup(Layout(chartData))
      ensures top == old(top) && bottom == old(bottom) && current == old(current)
    {
      rawData := chartData;
      out := TableMarkup(chartData);
    }

    /** `exportToCSV` on the data set the table last showed. */
    method ExportToCsv() returns (out: Export)
      ensures out == Csv(rawData)
    {
      var data := rawData;
      if data.Str? && |data.s| == 0 {
        return NoExport;
      }
      if !data.Arr? {
        return ExportThrown;
      }
      if |data.items| == 0 {
        return NoExport;
      }
      var csvContent := CsvContent(data.items);
      out := Download(csvContent);
    }
  }

  /** The `forEach` of `exportToCSV`: the header, then one `index,value` line per element. */
  method CsvContent(items: seq<Json>) returns (csvContent: string)
    ensures csvContent == CsvHeader + Concat(CsvLines(items))
  {
    csvContent := CsvHeader;
    ghost var lines := CsvLines(items);
    var idx := 0;
    while idx < |items|
      invariant 0 <= idx <= |items|
      invariant csvContent == CsvHeader + Concat(lines[..idx])
    {
      var line := NatToString(idx) + "," + Display(items[idx]) + "\n";
      assert line == lines[idx];
      AppendStep(CsvHeader, lines, idx);
      csvContent := csvContent + line;
      idx := idx + 1;
    }
    assert lines[..idx] == lines;
  }

  // ---------------------------------------------------------------- the gutter

  /** `numStr` after the first `n` rounds of the gutter loop. */
  function Gutter(n: nat): (g: string) {
    if n == 0 then "" else Gutter(n - 1) + NatToString(n) + "<br>"
  }

  /** The numbers `1` to `n`. */
  function Labels(n: nat): (ls: seq<string>) {
    seq(n, i requires 0 <= i < n => NatToString(i + 1))
  }

  lemma {:induction false} GutterJoin(n: nat)
    requires n >= 1
    ensures Gutter(n) == Join(Labels(n), "<br>") + "<br>"
  {
    if n > 1 {
      GutterJoin(n - 1);
      assert Labels(n) == Labels(n - 1) + [NatToString(n)];
      JoinSnoc(Labels(n - 1), NatToString(n), "<br>");
    } else {
      assert Labels(1) == ["1"];
    }
  }

  /** A buffer with `k` newline characters gets the gutter `1<br>2<br>...(k+1)<br>`. */
  lemma GutterOfBuffer(value: string)
    ensures Gutter(|Split(value, '\n')|) == Join(Labels(Count(value, '\n') + 1), "<br>") + "<br>"
  {
    SplitCount(value, '\n');
    GutterJoin(Count(value, '\n') + 1);
  }

  // ---------------------------------------------------------------- data values

  /** A value `JSON.parse` can produce; a number is kept as the text JavaScript prints for it. */
  datatype Json = Null | Bool(b: bool) | Num(text: string) | Str(s: string) | Arr(items: seq<Json>) | Obj

  /** `String(v)`, as a template literal writes a value. */
  function Display(v: Json): (text: string)
    decreases v
  {
    match v
    case Null => "null"
    case Bool(b) => if b then "true" else "false"
    case Num(t) => t
    case Str(s) => s
    case Arr(items) => DisplayItems(items)
    case Obj => "[object Object]"
  }

  /** `Array.prototype.toString`: the elements joined by commas, `null` elements written as nothing. */
  function DisplayItems(items: seq<Json>): (text: string)
    decreases items
  {
    if |items| == 0 then ""
    else
      var first := if items[0].Null? then "" else Display(items[0]);
      if |items| == 1 then first else first + "," + DisplayItems(items[1..])
  }

  /** What `series[r]` evaluates to. */
  datatype Lookup = Undefined | Defined(value: Json) | TypeError

  function Index(series: Json, r: nat): (l: Lookup) {
    match series
    case Null => TypeError
    case Arr(items) => if r < |items| then Defined(items[r]) else Undefined
    case Str(s) => if r < |s| then Defined(Str([s[r]])) else Undefined
    case _ => Undefined
  }

  // ---------------------------------------------------------------- the table

  /** What `renderTable` shows: the empty-data message, a grid, or nothing because it threw. */
  datatype Table = NoData | Grid(columns: seq<string>, rows: seq<seq<string>>) | Thrown

  /** A multi-series cell: `-` where the series has no element `r`. */
  function CellText(l: Lookup): (text: string)
    requires !l.TypeError?
  {
    if l.Undefined? then "-" else Display(l.value)
  }

  /** Row `r`'s cells over the first `n` series, or `None` when one of them throws. */
  function RowCells(items: seq<Json>, n: nat, r: nat): (cells: Option<seq<string>>)
    requires n <= |items|
  {
    if n == 0 then Some([])
    else
      match RowCells(items, n - 1, r)
      case None => None
      case Some(cells) =>
        var l := Index(items[n - 1], r);
        if l.TypeError? then None else Some(cells + [CellText(l)])
  }

  /** The first `n` rows of a multi-series table, or `None` when one of them throws. */
  function MultiRows(items: seq<Json>, n: nat): (rows: Option<seq<seq<string>>>) {
    if n == 0 then Some([])
    else
      match MultiRows(items, n - 1)
      case None => None
      case Some(rows) =>
        match RowCells(items, |items|, n - 1)
        case None => None
        case Some(cells) => Some(rows + [cells])
  }

  function SeriesTitle(i: nat): (title: string) {
    "Series " + NatToString(i + 1)
  }

  function SeriesTitles(n: nat): (titles: seq<string>) {
    seq(n, i requires 0 <= i < n => SeriesTitle(i))
  }

  function SingleRows(items: seq<Json>): (rows: seq<seq<string>>) {
    seq(|items|, r requires 0 <= r < |items| => ["<b>" + Display(items[r]) + "</b>"])
  }

  /** The table `renderTable` lays out for a data set. */
  function Layout(data: Json): (t: Table) {
    if !data.Arr? || |data.items| == 0 then NoData
    else
      var items := data.items;
      if items[0].Arr? then
        match MultiRows(items, |items[0].items|)
        case None => Thrown
        case Some(rows) => Grid(SeriesTitles(|items|), rows)
      else Grid(["Value"], SingleRows(items))
  }

  /** A row throws exactly when one of the series is `null`; otherwise every series gives one cell. */
  lemma {:induction false} RowCellsSpec(items: seq<Json>, n: nat, r: nat)
    requires n <= |items|
    ensures RowCells(items, n, r).None? <==> exists i :: 0 <= i < n && items[i].Null?
    ensures RowCells(items, n, r).Some? ==>
      var cells := RowCells(items, n, r).value;
      |cells| == n && forall i :: 0 <= i < n ==> cells[i] == CellText(Index(items[i], r))
  {
    if n > 0 {
      RowCellsSpec(items, n - 1, r);
      if RowCells(items, n - 1, r).Some? && !Index(items[n - 1], r).TypeError? {
        var cells := RowCells(items, n - 1, r).value;
        var all := cells + [CellText(Index(items[n - 1], r))];
        assert RowCells(items, n, r) == Some(all);
        forall i | 0 <= i < n ensures all[i] == CellText(Index(items[i], r)) {
          if i < n - 1 {
            assert all[i] == cells[i];
          }
        }
      }
    }
  }

  /** Rows are built in order, each from all the series; the table throws only if some row does. */
  lemma {:induction false} MultiRowsSpec(items: seq<Json>, n: nat)
    ensures MultiRows(items, n).None? <==> exists r :: 0 <= r < n && RowCells(items, |items|, r).None?
    ensures MultiRows(items, n).Some? ==>
      var rows := MultiRows(items, n).value;
      |rows| == n && forall r :: 0 <= r < n ==> Some(rows[r]) == RowCells(items, |items|, r)
  {
    if n > 0 {
      MultiRowsSpec(items, n - 1);
      if MultiRows(items, n - 1).None? {
        var r :| 0 <= r < n - 1 && RowCells(items, |items|, r).None?;
        assert 0 <= r < n && MultiRows(items, n).None?;
      } else if RowCells(items, |items|, n - 1).None? {
        assert 0 <= n - 1 < n && MultiRows(items, n).None?;
      }
      if exists r :: 0 <= r < n && RowCells(items, |items|, r).None? {
        var r :| 0 <= r < n && RowCells(items, |items|, r).None?;
        if r < n - 1 {
          assert MultiRows(items, n - 1).None?;
        }
      }
      if MultiRows(items, n - 1).Some? && RowCells(items, |items|, n - 1).Some? {
        var rows := MultiRows(items, n - 1).value;
        var all := rows + [RowCells(items, |items|, n - 1).value];
        assert MultiRows(items, n) == Some(all);
        forall r | 0 <= r < n ensures Some(all[r]) == RowCells(items, |items|, r) {
          if r < n - 1 {
            assert all[r] == rows[r];
          }
        }
        assert !exists r :: 0 <= r < n && RowCells(items, |items|, r).None? by {
          forall r | 0 <= r < n ensures RowCells(items, |items|, r).Some? {
            assert Some(all[r]) == RowCells(items, |items|, r);
          }
        }
      }
      assert MultiRows(items, n).None? ==> exists r :: 0 <= r < n && RowCells(items, |items|, r).None?;
      assert MultiRows(items, n).None? <== exists r :: 0 <= r < n && RowCells(items, |items|, r).None?;
    }
  }

  /** A non-array or an empty array shows only the message. */
  lemma LayoutNoData(data: Json)
    ensures Layout(data) == NoData <==> !data.Arr? || |data.items| == 0
  {
  }

  /** A single-series table has one `Value` column and one row per element. */
  lemma LayoutSingle(items: seq<Json>)
    requires |items| > 0 && !items[0].Arr?
    ensures Layout(Arr(items)).Grid?
    ensures Layout(Arr(items)).columns == ["Value"]
    ensures |Layout(Arr(items)).rows| == |items|
    ensures forall r :: 0 <= r < |items| ==> Layout(Arr(items)).rows[r] == ["<b>" + Display(items[r]) + "</b>"]
  {
  }

  /**
   * A multi-series table has one `Series i` column per series and as many
   * rows as the first series has elements, each cell the series' element or
   * `-`; it throws instead exactly when it has rows and a series is `null`.
   */
  lemma LayoutMulti(items: seq<Json>)
    requires |items| > 0 && items[0].Arr?
    ensures Layout(Arr(items)).Thrown? <==> |items[0].items| > 0 && exists i :: 0 <= i < |items| && items[i].Null?
    ensures Layout(Arr(items)).Grid? ==>
      var t := Layout(Arr(items));
      && |t.columns| == |items|
      && (forall i :: 0 <= i < |items| ==> t.columns[i] == "Series " + NatToString(i + 1))
      && |t.rows| == |items[0].items|
      && forall r, i :: 0 <= r < |t.rows| && 0 <= i < |items| ==>
        |t.rows[r]| == |items| && t.rows[r][i] == CellText(Index(items[i], r))
  {
    var n := |items[0].items|;
    MultiRowsSpec(items, n);
    if n > 0 {
      RowCellsSpec(items, |items|, 0);
    }
    if (exists i :: 0 <= i < |items| && items[i].Null?) && n > 0 {
      assert RowCells(items, |items|, 0).None?;
    }
    if MultiRows(items, n).Some? {
      var rows := MultiRows(items, n).value;
      forall r, i | 0 <= r < n && 0 <= i < |items| ensures |rows[r]| == |items| && rows[r][i] == CellText(Index(items[i], r)) {
        RowCellsSpec(items, |items|, r);
      }
    } else {
      var r :| 0 <= r < n && RowCells(items, |items|, r).None?;
      RowCellsSpec(items, |items|, r);
    }
  }

  // ---------------------------------------------------------------- the table's markup

  /** What the wrapper's HTML becomes, or that `renderTable` threw and left it alone. */
  datatype Rendered = Html(text: string) | Threw

  const NoDataMessage := "<p class=\"empty-msg\">No data processed</p>"
  const TableOpen := "<table><thead><tr><th>Index</th>"

  function HeaderTags(columns: seq<string>): (tags: seq<string>) {
    seq(|columns|, i requires 0 <= i < |columns| => "<th>" + columns[i] + "</th>")
  }

  function CellTags(cells: seq<string>): (tags: seq<string>) {
    seq(|cells|, i requires 0 <= i < |cells| => "<td>" + cells[i] + "</td>")
  }

  function RowTag(r: nat, cells: seq<string>): (tag: string) {
    "<tr><td># " + NatToString(r) + "</td>" + Concat(CellTags(cells)) + "</tr>"
  }

  function RowTags(rows: seq<seq<string>>): (tags: seq<string>) {
    seq(|rows|, r requires 0 <= r < |rows| => RowTag(r, rows[r]))
  }

  function Markup(t: Table): (m: Rendered) {
    match t
    case NoData => Html(NoDataMessage)
    case Thrown => Threw
    case Grid(columns, rows) =>
      Html(TableOpen + Concat(HeaderTags(columns)) + "</tr></thead><tbody>" + Concat(RowTags(rows)) + "</tbody></table>")
  }

  lemma HeaderTagsStep(n: nat)
    ensures HeaderTags(SeriesTitles(n + 1)) == HeaderTags(SeriesTitles(n)) + ["<th>Series " + NatToString(n + 1) + "</th>"]
  {
    var a := HeaderTags(SeriesTitles(n + 1));
    var b := HeaderTags(SeriesTitles(n)) + ["<th>Series " + NatToString(n + 1) + "</th>"];
    assert |a| == |b|;
    forall i | 0 <= i < |a| ensures a[i] == b[i] {
      if i < n {
        assert SeriesTitles(n + 1)[i] == SeriesTitles(n)[i];
      }
    }
  }

  lemma RowTagsStep(rows: seq<seq<string>>, cells: seq<string>)
    ensures RowTags(rows + [cells]) == RowTags(rows) + [RowTag(|rows|, cells)]
  {
    var a := RowTags(rows + [cells]);
    var b := RowTags(rows) + [RowTag(|rows|, cells)];
    assert |a| == |b|;
    forall r | 0 <= r < |a| ensures a[r] == b[r] {
      if r < |rows| {
        assert (rows + [cells])[r] == rows[r];
      }
    }
  }

  lemma CellTagsStep(cells: seq<string>, c: string)
    ensures CellTags(cells + [c]) == CellTags(cells) + ["<td>" + c + "</td>"]
  {
    var a := CellTags(cells + [c]);
    var b := CellTags(cells) + ["<td>" + c + "</td>"];
    assert |a| == |b|;
    forall i | 0 <= i < |a| ensures a[i] == b[i] {
      if i < |cells| {
        assert (cells + [c])[i] == cells[i];
      }
    }
  }

  /** The cells of one multi-series row, written as `<td>` elements, or `None` when the row throws. */
  method MultiCells(items: seq<Json>, r: nat) returns (html: Option<string>)
    ensures RowCells(items, |items|, r).None? ==> html.None?
    ensures RowCells(items, |items|, r).Some? ==> html == Some(Concat(CellTags(RowCells(items, |items|, r).value)))
  {
    var text := "";
    ghost var cells: seq<string> := [];
    var i := 0;
    while i < |items|
      invariant 0 <= i <= |items|
      invariant RowCells(items, i, r) == Some(cells)
      invariant text == Concat(CellTags(cells))
    {
      var l := Index(items[i], r);
      if l.TypeError? {
        NoneStays(items, i + 1, r);
        return None;
      }
      var c := if l.Undefined? then "-" else Display(l.value);
      CellTagsStep(cells, c);
      ConcatSnoc(CellTags(cells), "<td>" + c + "</td>");
      text := text + ("<td>" + c + "</td>");
      cells := cells + [c];
      i := i + 1;
    }
    html := Some(text);
  }

  /** Once a row has thrown, taking more series into account does not help. */
  lemma {:induction false} NoneStays(items: seq<Json>, n: nat, r: nat)
    requires 0 < n <= |items| && (RowCells(items, n - 1, r).None? || Index(items[n - 1], r).TypeError?)
    ensures RowCells(items, |items|, r).None?
    decreases |items| - n
  {
    if n < |items| {
      NoneStays(items, n + 1, r);
    }
  }

  /** Once a row has thrown, the whole table throws. */
  lemma {:induction false} RowsNoneStays(items: seq<Json>, n: nat, total: nat)
    requires n < total && (MultiRows(items, n).None? || RowCells(items, |items|, n).None?)
    ensures MultiRows(items, total).None?
    decreases total - n
  {
    if n + 1 < total {
      RowsNoneStays(items, n + 1, total);
    }
  }

  /** The `<th>` cells of the header, per mode. */
  method HeaderMarkup(items: seq<Json>, isMulti: bool) returns (html: string)
    ensures html == Concat(HeaderTags(if isMulti then SeriesTitles(|items|) else ["Value"]))
  {
    if !isMulti {
      ghost var columns := ["Value"];
      assert HeaderTags(columns)[0] == "<th>Value</th>";
      assert HeaderTags(columns) == ["<th>Value</th>"];
      ConcatSnoc([], "<th>Value</th>");
      return "<th>Value</th>";
    }
    html := "";
    var i := 0;
    while i < |items|
      invariant 0 <= i <= |items|
      invariant html == Concat(HeaderTags(SeriesTitles(i)))
    {
      HeaderTagsStep(i);
      ConcatSnoc(HeaderTags(SeriesTitles(i)), "<th>Series " + NatToString(i + 1) + "</th>");
      html := html + ("<th>Series " + NatToString(i + 1) + "</th>");
      i := i + 1;
    }
  }

  /** The rows of a single-series table: the index and the element in bold. */
  method SingleBody(items: seq<Json>) returns (body: string)
    ensures body == Concat(RowTags(SingleRows(items)))
  {
    body := "";
    ghost var rows := SingleRows(items);
    var r := 0;
    while r < |items|
      invariant 0 <= r <= |items|
      invariant body == Concat(RowTags(rows[..r]))
    {
      var line := "<tr><td># " + NatToString(r) + "</td>" + "<td><b>" + Display(items[r]) + "</b></td>" + "</tr>";
      SingleRowTag(items, r);
      RowTagsPrefix(rows, r);
      body := body + line;
      r := r + 1;
    }
    assert rows[..r] == rows;
  }

  lemma SingleRowTag(items: seq<Json>, r: nat)
    requires r < |items|
    ensures RowTag(r, SingleRows(items)[r])
      == "<tr><td># " + NatToString(r) + "</td>" + "<td><b>" + Display(items[r]) + "</b></td>" + "</tr>"
  {
    var text := "<b>" + Display(items[r]) + "</b>";
    assert SingleRows(items)[r] == [text];
    assert CellTags([text]) == ["<td>" + text + "</td>"];
    ConcatSnoc([], "<td>" + text + "</td>");
  }

  lemma RowTagsPrefix(rows: seq<seq<string>>, r: nat)
    requires r < |rows|
    ensures Concat(RowTags(rows[..r + 1])) == Concat(RowTags(rows[..r])) + RowTag(r, rows[r])
  {
    assert rows[..r + 1] == rows[..r] + [rows[r]];
    RowTagsStep(rows[..r], rows[r]);
    ConcatSnoc(RowTags(rows[..r]), RowTag(r, rows[r]));
  }

  /** The rows of a multi-series table, or `None` when one of them throws. */
  method MultiBody(items: seq<Json>, rowCount: nat) returns (body: Option<string>)
    ensures MultiRows(items, rowCount).None? ==> body.None?
    ensures MultiRows(items, rowCount).Some? ==> body == Some(Concat(RowTags(MultiRows(items, rowCount).value)))
  {
    var text := "";
    ghost var rows: seq<seq<string>> := [];
    var r := 0;
    while r < rowCount
      invariant 0 <= r <= rowCount
      invariant MultiRows(items, r) == Some(rows) && |rows| == r
      invariant text == Concat(RowTags(rows))
    {
      var cells := MultiCells(items, r);
      if cells.None? {
        RowsNoneStays(items, r, rowCount);
        return None;
      }
      ghost var row := RowCells(items, |items|, r).value;
      var line := "<tr><td># " + NatToString(r) + "</td>" + cells.value + "</tr>";
      assert line == RowTag(r, row);
      RowTagsStep(rows, row);
      ConcatSnoc(RowTags(rows), line);
      text := text + line;
      rows := rows + [row];
      r := r + 1;
    }
    body := Some(text);
  }

  /** The string builder of `renderTable`: the wrapper's new HTML for a data set. */
  method TableMarkup(chartData: Json) returns (out: Rendered)
    ensures out == Markup(Layout(chartData))
  {
    if !chartData.Arr? || |chartData.items| == 0 {
      return Html(NoDataMessage);
    }
    var items := chartData.items;
    var isMulti := items[0].Arr?;
    var header := HeaderMarkup(items, isMulti);
    var body;
    if isMulti {
      var rows := MultiBody(items, |items[0].items|);
      if rows.None? {
        return Threw;
      }
      body := rows.value;
    } else {
      body := SingleBody(items);
    }
    out := Html(TableOpen + header + "</tr></thead><tbody>" + body + "</tbody></table>");
  }

  // ---------------------------------------------------------------- the CSV download

  /** What `exportToCSV` does: nothing, a download of this text, or throw. */
  datatype Export = NoExport | Download(content: string) | ExportThrown

  const CsvTitle := "data:text/csv;charset=utf-8,Index,Value"
  const CsvHeader := CsvTitle + "\n"

  function CsvLines(items: seq<Json>): (lines: seq<string>) {
    seq(|items|, i requires 0 <= i < |items| => NatToString(i) + "," + Display(items[i]) + "\n")
  }

  /**
   * `exportToCSV`: an empty array (or empty string) exports nothing, any
   * other non-array throws at `forEach` (or at `.length` on `null`).
   */
  function Csv(data: Json): (e: Export) {
    match data
    case Arr(items) =>
      if |items| == 0 then NoExport else Download(CsvHeader + Concat(CsvLines(items)))
    case Str(s) => if |s| == 0 then NoExport else ExportThrown
    case _ => ExportThrown
  }

  lemma CsvTitleOneLine()
    ensures '\n' !in CsvTitle
  {
  }

  /** Text made of lines each ended by a newline splits into those lines and a final empty piece. */
  lemma {:induction false} SplitLines(ls: seq<string>)
    requires forall i :: 0 <= i < |ls| ==> '\n' !in ls[i]
    ensures Split(Concat(seq(|ls|, i requires 0 <= i < |ls| => ls[i] + "\n")), '\n') == ls + [""]
    decreases |ls|
  {
    var pieces := seq(|ls|, i requires 0 <= i < |ls| => ls[i] + "\n");
    if |ls| > 0 {
      var rest := ls[1..];
      var restPieces := seq(|rest|, i requires 0 <= i < |rest| => rest[i] + "\n");
      assert pieces == [ls[0] + "\n"] + restPieces;
      ConcatCons(ls[0] + "\n", restPieces);
      SplitLines(rest);
      SplitAfter(ls[0], '\n', Concat(restPieces));
      assert ls[0] + "\n" + Concat(restPieces) == ls[0] + ['\n'] + Concat(restPieces);
      assert ls == [ls[0]] + rest;
    } else {
      assert pieces == [];
    }
  }

  /**
   * The download's lines are the `Index,Value` header and one `index,value`
   * line per element, in order, when no value's text holds a newline.
   */
  lemma CsvRows(items: seq<Json>)
    requires |items| > 0
    requires forall i :: 0 <= i < |items| ==> '\n' !in Display(items[i])
    ensures Csv(Arr(items)).Download?
    ensures Split(Csv(Arr(items)).content, '\n')
      == [CsvTitle] + seq(|items|, i requires 0 <= i < |items| => NatToString(i) + "," + Display(items[i])) + [""]
  {
    var ls := seq(|items|, i requires 0 <= i < |items| => NatToString(i) + "," + Display(items[i]));
    forall i | 0 <= i < |ls| ensures '\n' !in ls[i] {
      NatToStringDigits(i);
      assert ls[i] == NatToString(i) + "," + Display(items[i]);
    }
    assert CsvLines(items) == seq(|ls|, i requires 0 <= i < |ls| => ls[i] + "\n");
    SplitLines(ls);
    CsvTitleOneLine();
    SplitAfter(CsvTitle, '\n', Concat(CsvLines(items)));
    assert CsvHeader + Concat(CsvLines(items)) == CsvTitle + ['\n'] + Concat(CsvLines(items));
  }
}
