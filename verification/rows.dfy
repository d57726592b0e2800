/**
  What both ingestion scripts see of the scraped AFAD page: a table of rows,
  each row the stripped text of its cells. Fetching and HTML parsing are not
  modelled; `float()` on a cell is an abstract parser that may fail.
 */
module ScrapedRows {
  import opened Wrappers

  /** The stripped text of each `td` cell of one `tr`. */
  type Row = seq<string>

  /** `float(text)`: None where Python raises ValueError. */
  type Parser = string -> Option<real>

  /** Rows need date, latitude, longitude, depth, type and magnitude cells. */
  const MinColumns: nat := 6

  predicate Wide(row: Row)
  {
    |row| >= MinColumns
  }

  /** The number of rows with enough cells. */
  function WideCount(rows: seq<Row>): (n: nat)
    ensures n <= |rows|
    ensures n == 0 <==> forall i :: 0 <= i < |rows| ==> !Wide(rows[i])
  {
    if rows == [] then 0
    else
      var rest := WideCount(rows[1..]);
      assert forall i :: 1 <= i < |rows| ==> rows[1..][i - 1] == rows[i];
      (if Wide(rows[0]) then 1 else 0) + rest
  }

  /** `table.find_all("tr")[1:]`: every row but the header. */
  function DataRows(table: seq<Row>): (r: seq<Row>)
    ensures |r| == if table == [] then 0 else |table| - 1
    ensures forall i :: 0 <= i < |r| ==> r[i] == table[i + 1]
  {
    if table == [] then [] else table[1..]
  }
}
