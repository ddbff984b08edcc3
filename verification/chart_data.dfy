/** The data half of the component's `parseChartData`: locating the matched axis columns in
    the header and projecting every parsed row onto a point. Numbers are not parsed here: a
    point holds the two cell texts that `parseFloat` receives. */
module ChartData {
  import opened Wrappers
  import opened Strings
  import opened Tabular
  import opened Resolver

  /** The cell texts handed to `parseFloat` for one row. `None` is an `undefined` cell (an
      index outside the row's values), which `parseFloat` turns into NaN. */
  datatype Point = Point(x: Option<string>, y: Option<string>)

  /** The chart type, the dataset title, the two axis titles and the points. */
  datatype ChartSpec = ChartSpec(plotType: string, title: string, xTitle: string, yTitle: string, points: seq<Point>)

  /** `columnNames.indexOf(label)`; an `undefined` label is found nowhere. */
  function LabelIndex(columnNames: seq<string>, name: Option<string>): (r: int)
    ensures r == -1 <==> name.None? || name.value !in columnNames
    ensures r != -1 ==> 0 <= r < |columnNames| && columnNames[r] == name.value
    ensures r != -1 ==> forall j :: 0 <= j < r ==> columnNames[j] != name.value
  {
    if name.None? then -1 else IndexOf(columnNames, name.value)
  }

  /** Cell `c` of a row read as a full line, with its key at column 0. */
  function TableCell(row: (string, seq<string>), c: int): Option<string>
  {
    ElementAt([row.0] + row.1, c)
  }

  /** `Object.entries(parsedData).map(([_, values]) => ({x: values[xIndex - 1], y: values[yIndex - 1]}))`. */
  function Project(rows: Rows, xIndex: int, yIndex: int): (points: seq<Point>)
    ensures |points| == |rows|
    ensures forall i :: 0 <= i < |rows| ==>
              points[i] == Point(ElementAt(rows[i].1, xIndex - 1), ElementAt(rows[i].1, yIndex - 1))
  {
    if |rows| == 0 then []
    else [Point(ElementAt(rows[0].1, xIndex - 1), ElementAt(rows[0].1, yIndex - 1))] + Project(rows[1..], xIndex, yIndex)
  }

  /** Column `c >= 1` of the header selects value `c - 1`, which is cell `c` of the full row;
      column 0, the key column, selects value -1, which is `undefined`. */
  lemma OffsetSelectsColumn(rows: Rows, c: int)
    requires c >= 0
    ensures forall i :: 0 <= i < |rows| ==> ElementAt(rows[i].1, c - 1) == if c == 0 then None else TableCell(rows[i], c)
  {
    forall i | 0 <= i < |rows|
      ensures ElementAt(rows[i].1, c - 1) == if c == 0 then None else TableCell(rows[i], c)
    {
      if c > 0 && c - 1 < |rows[i].1| {
        assert ([rows[i].0] + rows[i].1)[c] == rows[i].1[c - 1];
      }
    }
  }

  /** The component's `parseChartData`, without the rendering options. Nothing is produced
      when there is no parsed data or when either matched label is not a header name.
      Otherwise there is exactly one point per row, in row order, whose coordinates are that
      row's cells under the first header column named by each label; a label naming the key
      column gives `undefined` coordinates. The chart type is the matched plot type and the
      axis titles are the matched labels. */
  function ParseChartData(columnNames: seq<string>, parsedData: Option<Rows>, options: ResolvedIntent)
    : (r: Option<ChartSpec>)
    ensures r.Some? <==> parsedData.Some?
                         && options.xAxisLabel.Some? && options.xAxisLabel.value in columnNames
                         && options.yAxisLabel.Some? && options.yAxisLabel.value in columnNames
    ensures r.Some? ==> r.value.plotType == options.plotType
                        && r.value.xTitle == options.xAxisLabel.value
                        && r.value.yTitle == options.yAxisLabel.value
                        && r.value.title == r.value.xTitle + " vs " + r.value.yTitle
    ensures r.Some? ==> |r.value.points| == |parsedData.value|
    ensures r.Some? ==> forall i :: 0 <= i < |parsedData.value| ==>
              var xIndex, yIndex := IndexOf(columnNames, r.value.xTitle), IndexOf(columnNames, r.value.yTitle);
              && r.value.points[i].x == (if xIndex == 0 then None else TableCell(parsedData.value[i], xIndex))
              && r.value.points[i].y == (if yIndex == 0 then None else TableCell(parsedData.value[i], yIndex))
  {
    if parsedData.None? then None
    else
      var xIndex := LabelIndex(columnNames, options.xAxisLabel);
      var yIndex := LabelIndex(columnNames, options.yAxisLabel);
      if xIndex == -1 || yIndex == -1 then None
      else
        var rows := parsedData.value;
        var data := Project(rows, xIndex, yIndex);
        OffsetSelectsColumn(rows, xIndex);
        OffsetSelectsColumn(rows, yIndex);
        var x, y := columnNames[xIndex], columnNames[yIndex];
        Some(ChartSpec(options.plotType, x + " vs " + y, x, y, data))
  }
}
