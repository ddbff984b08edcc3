/** The two CSV-to-rows parsers of the application. Both take the uploaded text already cut
    into lines at '\n', split each line on ',' (no quoting), and key every row by its first
    cell in an insertion-ordered table where a later row with the same key wins.

    They differ and are kept apart:
    - the chart component's parser trims the header names and the row values, reads every
      line after the header (a trailing empty line becomes the row keyed ""), and keeps the
      header;
    - the query service's parser does not trim, cuts every value at its first '\r', skips
      the final line, and keeps only the rows. */
module Tabular {
  import opened Wrappers
  import opened Strings
  import opened AssocList

  /** Row key (the untrimmed first cell) mapped to the remaining cells, in order. */
  type Rows = AssocList<seq<string>>

  /** What the component keeps after parsing: the header and the rows. */
  datatype Dataset = Dataset(columnNames: seq<string>, rows: Rows)

  /** `lines[0]` of an empty array is `undefined`; calling `split` on it throws a TypeError.
      The reader never produces an empty array, since splitting any text yields a line. */
  datatype ParseError = MissingHeaderLine

  /** The cells of one line. */
  function Cells(line: string): (cells: seq<string>)
    ensures |cells| >= 1
  {
    Split(line, ',')
  }

  /** The key a line is stored under: its first cell, untrimmed in both parsers. */
  function RowKey(line: string): string
  {
    Cells(line)[0]
  }

  function TrimAll(cells: seq<string>): (r: seq<string>)
    ensures |r| == |cells|
    ensures forall i :: 0 <= i < |cells| ==> r[i] == Trim(cells[i])
  {
    if |cells| == 0 then [] else [Trim(cells[0])] + TrimAll(cells[1..])
  }

  /* ---------------------------------------------------------------- component parser */

  /** The assignment `acc[key] = values.slice(1).map(v => v.trim())` made for one line. */
  function ComponentEntry(line: string): (e: (string, seq<string>))
  {
    (RowKey(line), TrimAll(Cells(line)[1..]))
  }

  function ComponentEntries(lines: seq<string>): (es: seq<(string, seq<string>)>)
    ensures |es| == |lines|
    ensures forall i :: 0 <= i < |lines| ==> es[i] == ComponentEntry(lines[i])
  {
    if |lines| == 0 then [] else [ComponentEntry(lines[0])] + ComponentEntries(lines[1..])
  }

  /** The component's `parseData`: the header is the first line split on ',' with every name
      trimmed; the rows are the reduce over all later lines. */
  function ParseData(lines: seq<string>): (r: Result<Dataset, ParseError>)
    ensures r.Failure? <==> |lines| == 0
    ensures r.Success? ==> |r.value.columnNames| == |Cells(lines[0])|
    ensures r.Success? ==> forall i :: 0 <= i < |r.value.columnNames| ==>
                             r.value.columnNames[i] == Trim(Cells(lines[0])[i])
    ensures r.Success? ==> |r.value.rows| <= |lines| - 1
  {
    if |lines| == 0 then Failure(MissingHeaderLine)
    else
      var rows := Build(ComponentEntries(lines[1..]));
      BuildKeys(ComponentEntries(lines[1..]));
      FirstOccurrencesLength(Keys(ComponentEntries(lines[1..])));
      Success(Dataset(TrimAll(Cells(lines[0])), rows))
  }

  lemma {:induction false} FirstOccurrencesLength(ks: seq<string>)
    ensures |FirstOccurrences(ks)| <= |ks|
  {
    if |ks| > 0 {
      FirstOccurrencesLength(ks[..|ks| - 1]);
    }
  }

  /** Every line after the header is stored under its first cell: a key is absent exactly when
      no later line starts with it. */
  lemma ParseDataAbsent(lines: seq<string>, k: string)
    requires |lines| > 0
    ensures Get(ParseData(lines).value.rows, k).None? <==>
              forall i :: 1 <= i < |lines| ==> RowKey(lines[i]) != k
  {
    var es := ComponentEntries(lines[1..]);
    assert ParseData(lines).value.rows == Build(es);
    BuildAbsent(es, k);
    assert forall i :: 1 <= i < |lines| ==> es[i - 1].0 == RowKey(lines[i]);
    assert forall i :: 0 <= i < |es| ==> es[i].0 == RowKey(lines[i + 1]);
  }

  /** A key reads the trimmed remaining cells of the LAST line that starts with it. */
  lemma ParseDataLastWriteWins(lines: seq<string>, k: string, i: int)
    requires 1 <= i < |lines| && RowKey(lines[i]) == k
    requires forall j :: i < j < |lines| ==> RowKey(lines[j]) != k
    ensures Get(ParseData(lines).value.rows, k) == Some(TrimAll(Cells(lines[i])[1..]))
  {
    var es := ComponentEntries(lines[1..]);
    assert ParseData(lines).value.rows == Build(es);
    assert forall j :: 0 <= j < |es| ==> es[j].0 == RowKey(lines[j + 1]);
    assert IsLastFor(es, k, i - 1);
    BuildLastWriteWins(es, k, i - 1);
  }

  /** The key of every line, in order. */
  function RowKeys(lines: seq<string>): (ks: seq<string>)
    ensures |ks| == |lines|
    ensures forall i :: 0 <= i < |lines| ==> ks[i] == RowKey(lines[i])
  {
    if |lines| == 0 then [] else [RowKey(lines[0])] + RowKeys(lines[1..])
  }

  /** The row keys appear once each, in the order their first line appears. */
  lemma ParseDataKeys(lines: seq<string>)
    requires |lines| > 0
    ensures Keys(ParseData(lines).value.rows) == FirstOccurrences(RowKeys(lines[1..]))
    ensures Distinct(Keys(ParseData(lines).value.rows))
  {
    var es := ComponentEntries(lines[1..]);
    assert ParseData(lines).value.rows == Build(es);
    BuildKeys(es);
    assert Keys(es) == RowKeys(lines[1..]);
  }

  /* ---------------------------------------------------------------- service parser */

  /** `values.slice(1)` with each value cut at its first '\r'. */
  function CutAtCarriageReturn(cells: seq<string>): (r: seq<string>)
    ensures |r| == |cells|
    ensures forall j :: 0 <= j < |cells| ==> r[j] == BeforeFirst(cells[j], '\r')
  {
    if |cells| == 0 then [] else [BeforeFirst(cells[0], '\r')] + CutAtCarriageReturn(cells[1..])
  }

  function ServiceEntry(line: string): (e: (string, seq<string>))
  {
    (RowKey(line), CutAtCarriageReturn(Cells(line)[1..]))
  }

  /** The lines the service's loop reads: 1 .. |lines| - 2, so neither the header nor the
      final line. */
  function ServiceLines(lines: seq<string>): (body: seq<string>)
    ensures |body| == if |lines| >= 2 then |lines| - 2 else 0
    ensures forall i :: 0 <= i < |body| ==> body[i] == lines[i + 1]
  {
    if |lines| < 2 then [] else lines[1..|lines| - 1]
  }

  function ServiceEntries(body: seq<string>): (es: seq<(string, seq<string>)>)
    ensures |es| == |body|
    ensures forall i :: 0 <= i < |body| ==> es[i] == ServiceEntry(body[i])
  {
    if |body| == 0 then [] else [ServiceEntry(body[0])] + ServiceEntries(body[1..])
  }

  /** The service's rows list each key once, in the order its first line appears. */
  lemma ServiceKeys(lines: seq<string>)
    ensures Keys(Build(ServiceEntries(ServiceLines(lines)))) == FirstOccurrences(RowKeys(ServiceLines(lines)))
    ensures Distinct(Keys(Build(ServiceEntries(ServiceLines(lines)))))
  {
    var es := ServiceEntries(ServiceLines(lines));
    BuildKeys(es);
    assert Keys(es) == RowKeys(ServiceLines(lines));
  }

  /** A key is missing from the service's rows exactly when no line it reads starts with it. */
  lemma ServiceAbsent(lines: seq<string>, k: string)
    ensures Get(Build(ServiceEntries(ServiceLines(lines))), k).None? <==>
              forall i :: 1 <= i < |lines| - 1 ==> RowKey(lines[i]) != k
  {
    var es := ServiceEntries(ServiceLines(lines));
    BuildAbsent(es, k);
    assert forall i :: 0 <= i < |es| ==> es[i].0 == RowKey(lines[i + 1]);
    assert forall i :: 1 <= i < |lines| - 1 ==> es[i - 1].0 == RowKey(lines[i]);
  }

  /** A key of the service's rows holds the cut values of the LAST line read that starts
      with it. */
  lemma ServiceLastWriteWins(lines: seq<string>, i: int)
    requires 1 <= i < |lines| - 1
    requires forall j :: i < j < |lines| - 1 ==> RowKey(lines[j]) != RowKey(lines[i])
    ensures Get(Build(ServiceEntries(ServiceLines(lines))), RowKey(lines[i])) ==
              Some(CutAtCarriageReturn(Cells(lines[i])[1..]))
  {
    var es := ServiceEntries(ServiceLines(lines));
    assert forall j :: 0 <= j < |es| ==> es[j].0 == RowKey(lines[j + 1]);
    assert IsLastFor(es, RowKey(lines[i]), i - 1);
    BuildLastWriteWins(es, RowKey(lines[i]), i - 1);
  }

  /** The facts the service's contract states, for the table its loop builds. */
  lemma ServiceRows(lines: seq<string>)
    ensures var rows := Build(ServiceEntries(ServiceLines(lines)));
            && Keys(rows) == FirstOccurrences(RowKeys(ServiceLines(lines)))
            && Distinct(Keys(rows))
            && (forall k :: Get(rows, k).None? <==> forall i :: 1 <= i < |lines| - 1 ==> RowKey(lines[i]) != k)
            && (forall i :: (1 <= i < |lines| - 1 && forall j :: i < j < |lines| - 1 ==> RowKey(lines[j]) != RowKey(lines[i]))
                  ==> Get(rows, RowKey(lines[i])) == Some(CutAtCarriageReturn(Cells(lines[i])[1..])))
  {
    ServiceKeys(lines);
    forall k
      ensures Get(Build(ServiceEntries(ServiceLines(lines))), k).None? <==>
                forall i :: 1 <= i < |lines| - 1 ==> RowKey(lines[i]) != k
    {
      ServiceAbsent(lines, k);
    }
    forall i | 1 <= i < |lines| - 1 && (forall j :: i < j < |lines| - 1 ==> RowKey(lines[j]) != RowKey(lines[i]))
      ensures Get(Build(ServiceEntries(ServiceLines(lines))), RowKey(lines[i])) ==
                Some(CutAtCarriageReturn(Cells(lines[i])[1..]))
    {
      ServiceLastWriteWins(lines, i);
    }
  }

  /** The inner loop of the service's parser: every value after the key, cut before its
      first '\r'. */
  method CutValues(values: seq<string>) returns (cut: seq<string>)
    requires |values| >= 1
    ensures cut == CutAtCarriageReturn(values[1..])
  {
    cut := [];
    var j := 1;
    while j < |values|
      invariant 1 <= j <= |values|
      invariant |cut| == j - 1
      invariant forall t :: 0 <= t < j - 1 ==> cut[t] == BeforeFirst(values[t + 1], '\r')
    {
      cut := cut + [BeforeFirst(values[j], '\r')];
      j := j + 1;
    }
  }

  /** The service's `parseData`. Every line strictly between the header and the final line
      is stored under its first cell; its values are the remaining cells, each cut before its
      first '\r'; a repeated key is reset, so the last such line wins. The final line is never
      read. The header is split but not kept. */
  method ServiceParseData(lines: seq<string>) returns (r: Result<Rows, ParseError>)
    ensures r.Failure? <==> |lines| == 0
    ensures r.Success? ==> Keys(r.value) == FirstOccurrences(RowKeys(ServiceLines(lines)))
    ensures r.Success? ==> Distinct(Keys(r.value))
    ensures r.Success? ==> forall k :: Get(r.value, k).None? <==>
                             forall i :: 1 <= i < |lines| - 1 ==> RowKey(lines[i]) != k
    ensures r.Success? ==>
              forall i :: (1 <= i < |lines| - 1 && forall j :: i < j < |lines| - 1 ==> RowKey(lines[j]) != RowKey(lines[i]))
                ==> Get(r.value, RowKey(lines[i])) == Some(CutAtCarriageReturn(Cells(lines[i])[1..]))
  {
    if |lines| == 0 {
      return Failure(MissingHeaderLine);
    }
    // `columnNames.every(name => typeof name === 'string')` always holds for split output.
    var columnNames := Split(lines[0], ',');
    ghost var es := ServiceEntries(ServiceLines(lines));
    var data: Rows := [];
    var i := 1;
    while i < |lines| - 1
      invariant 1 <= i <= |es| + 1
      invariant data == Build(es[..i - 1])
    {
      var values := Split(lines[i], ',');
      var cut := CutValues(values);
      assert cut == es[i - 1].1;
      assert es[..i][..i - 1] == es[..i - 1];
      data := Assign(data, values[0], cut);
      i := i + 1;
    }
    assert es[..i - 1] == es;
    ServiceRows(lines);
    return Success(data);
  }
}
