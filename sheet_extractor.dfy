/**
 * The extraction of the first worksheet into headers and row records
 * (server.js, lines 46-75).
 */
module SheetExtractor {
  import opened JsValues
  import opened CellNormaliser
  import opened Seqs

  /** A row that `eachRow` visits: its 1-based row number and the values of its cells from column 1 on. */
  datatype VisitedRow = VisitedRow(number: nat, cells: seq<Value>)

  /** The first worksheet: the values of row 1 and the rows `eachRow` visits, in visiting order. */
  datatype Worksheet = Worksheet(headerRow: seq<string>, visited: seq<VisitedRow>)

  /** A row record: header name to stored cell value. */
  type Record = map<string, Value>

  /** `row.getCell(col).value`: a column beyond the row's last cell holds `null`. */
  function CellAt(cells: seq<Value>, col: nat): Value {
    if 1 <= col <= |cells| then cells[col - 1] else Null
  }

  /** Every value of the record is truthy or the empty string. */
  predicate AllStored(r: Record) {
    forall h :: h in r ==> Truthy(r[h]) || r[h] == Str("")
  }

  /**
   * The record built for a row with cell values `cells`: header `i` (from 0)
   * takes the normalised value of column `i + 1`, later headers overwriting
   * earlier ones of the same name.
   */
  function RecordOf(headers: seq<string>, cells: seq<Value>): (r: Record)
    ensures r.Keys == set h | h in headers
    ensures AllStored(r)
    decreases |headers|
  {
    if headers == [] then map[]
    else
      var n := |headers| - 1;
      assert headers == headers[..n] + [headers[n]];
      RecordOf(headers[..n], cells)[headers[n] := Normalise(CellAt(cells, n + 1))]
  }

  /** The value under a header is the normalised cell of its last occurrence's column. */
  lemma {:induction false} RecordOfAt(headers: seq<string>, cells: seq<Value>, i: nat)
    requires i < |headers|
    requires forall j :: i < j < |headers| ==> headers[j] != headers[i]
    ensures headers[i] in RecordOf(headers, cells)
    ensures RecordOf(headers, cells)[headers[i]] == Normalise(CellAt(cells, i + 1))
    decreases |headers|
  {
    var n := |headers| - 1;
    var prefix := headers[..n];
    var v := Normalise(CellAt(cells, n + 1));
    assert RecordOf(headers, cells) == RecordOf(prefix, cells)[headers[n] := v];
    if i < n {
      assert prefix[i] == headers[i];
      assert forall j :: i < j < |prefix| ==> prefix[j] == headers[j];
      RecordOfAt(prefix, cells, i);
      assert headers[n] != headers[i];
    }
  }

  /** With distinct headers, header `i` holds the normalised value of column `i + 1`. */
  lemma RecordOfDistinct(headers: seq<string>, cells: seq<Value>)
    requires forall i, j :: 0 <= i < j < |headers| ==> headers[i] != headers[j]
    ensures forall i :: 0 <= i < |headers| ==>
      RecordOf(headers, cells)[headers[i]] == Normalise(CellAt(cells, i + 1))
  {
    forall i | 0 <= i < |headers|
      ensures RecordOf(headers, cells)[headers[i]] == Normalise(CellAt(cells, i + 1))
    {
      RecordOfAt(headers, cells, i);
    }
  }

  /** The `headers.forEach` loop filling `rowData` (server.js, lines 52-72). */
  method BuildRecord(headers: seq<string>, cells: seq<Value>) returns (rowData: Record)
    ensures rowData == RecordOf(headers, cells)
    ensures rowData.Keys == set h | h in headers
  {
    rowData := map[];
    for index := 0 to |headers|
      invariant rowData == RecordOf(headers[..index], cells)
    {
      var value := Normalise(CellAt(cells, index + 1));
      rowData := rowData[headers[index] := value];
      assert headers[..index + 1][..index] == headers[..index];
    }
    assert headers[..|headers|] == headers;
  }

  /** Every visited row except row 1 is a data row. */
  predicate IsDataRow(row: VisitedRow) {
    row.number != 1
  }

  /** The visited rows that become records, in visiting order. */
  function DataRows(visited: seq<VisitedRow>): seq<VisitedRow> {
    Filter(visited, IsDataRow)
  }

  /** The records pushed while visiting `visited`, in order. */
  function Extracted(headers: seq<string>, visited: seq<VisitedRow>): seq<Record>
    decreases |visited|
  {
    if visited == [] then []
    else
      var n := |visited| - 1;
      Extracted(headers, visited[..n]) +
      (if IsDataRow(visited[n]) then [RecordOf(headers, visited[n].cells)] else [])
  }

  /** One record per data row, in visiting order, each built from that row's cells. */
  lemma {:induction false} ExtractedShape(headers: seq<string>, visited: seq<VisitedRow>)
    ensures |Extracted(headers, visited)| == |DataRows(visited)|
    ensures forall j :: 0 <= j < |DataRows(visited)| ==>
      Extracted(headers, visited)[j] == RecordOf(headers, DataRows(visited)[j].cells)
    decreases |visited|
  {
    if visited != [] {
      var n := |visited| - 1;
      ExtractedShape(headers, visited[..n]);
      assert visited == visited[..n] + [visited[n]];
      FilterAppend(visited[..n], [visited[n]], IsDataRow);
      assert [visited[n]][1..] == [];
    }
  }

  /** The visited rows that become records are those numbered other than 1, in visiting order. */
  lemma DataRowsAreVisitOrder(visited: seq<VisitedRow>)
    ensures IsSubsequence(DataRows(visited), visited)
    ensures forall row :: row in DataRows(visited) <==> row in visited && row.number != 1
  {
    FilterIsSubsequence(visited, IsDataRow);
    forall row
      ensures row in DataRows(visited) <==> row in visited && row.number != 1
    {
      FilterMembership(visited, IsDataRow, row);
    }
  }

  /**
   * The upload handler's extraction: headers are row 1's values, and each
   * visited row other than row 1 is pushed as a record (server.js, lines 46-75).
   */
  method Extract(sheet: Worksheet) returns (headers: seq<string>, rows: seq<Record>)
    ensures headers == sheet.headerRow
    ensures rows == Extracted(headers, sheet.visited)
    ensures |rows| == |DataRows(sheet.visited)|
    ensures forall j :: 0 <= j < |rows| ==> rows[j] == RecordOf(headers, DataRows(sheet.visited)[j].cells)
  {
    headers := sheet.headerRow;
    rows := [];
    var i := 0;
    while i < |sheet.visited|
      invariant i <= |sheet.visited|
      invariant rows == Extracted(headers, sheet.visited[..i])
    {
      var row := sheet.visited[i];
      if row.number != 1 {
        var rowData := BuildRecord(headers, row.cells);
        rows := rows + [rowData];
      }
      assert sheet.visited[..i + 1][..i] == sheet.visited[..i];
      i := i + 1;
    }
    assert sheet.visited[..i] == sheet.visited;
    ExtractedShape(headers, sheet.visited);
  }
}
