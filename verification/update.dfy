/**
  The update endpoint's scraper. Compared with the batch script it stores the
  depth cell as raw text, parses the magnitude without normalisation, counts
  every in-region row it hands to the save (duplicates included) and gives up
  on the whole batch at the first row whose conversion fails.
 */
module Update {
  import opened Wrappers
  import opened Timestamps
  import opened Region
  import opened ScrapedRows

  /** One row of the PostgreSQL table; `derinlik` is a TEXT column here. */
  datatype Record = Record(ts: Timestamp, lat: real, lon: real, depth: string, kind: string, magnitude: real)

  /** The table, keyed by its primary key `tarih`. */
  type Table = map<Timestamp, Record>

  ghost predicate WellKeyedTable(t: Table)
  {
    forall k :: k in t ==> t[k].ts == k
  }

  /** `save_earthquake`: INSERT ... ON CONFLICT (tarih) DO NOTHING. */
  function SaveEarthquake(t: Table, rec: Record): (r: Table)
    ensures r.Keys == t.Keys + {rec.ts}
    ensures forall k :: k in t ==> r[k] == t[k]
    ensures rec.ts !in t ==> r[rec.ts] == rec
    ensures |r| <= |t| + 1
  {
    if rec.ts in t then t else t[rec.ts := rec]
  }

  /** Latitude, longitude and magnitude go through `float()`; depth stays text. */
  function ParseRecord(row: Row, parse: Parser): (r: Option<Record>)
    requires Wide(row)
    ensures r.Some? <==> parse(row[1]).Some? && parse(row[2]).Some? && parse(row[5]).Some?
    ensures r.Some? ==>
      r.value.ts == row[0] && r.value.depth == row[3] && r.value.kind == row[4]
      && r.value.lat == parse(row[1]).value && r.value.lon == parse(row[2]).value
      && r.value.magnitude == parse(row[5]).value
  {
    var lat := parse(row[1]);
    var lon := parse(row[2]);
    var magnitude := parse(row[5]);
    if lat.Some? && lon.Some? && magnitude.Some? then
      Some(Record(row[0], lat.value, lon.value, row[3], row[4], magnitude.value))
    else
      None
  }

  /** A wide row whose conversion raises: it ends the batch. */
  predicate Fails(row: Row, parse: Parser)
  {
    Wide(row) && ParseRecord(row, parse).None?
  }

  /** A wide, converted, in-region row: it is saved and counted. */
  predicate Counted(row: Row, parse: Parser)
  {
    Wide(row) && ParseRecord(row, parse).Some?
    && InMarmara(ParseRecord(row, parse).value.lat, ParseRecord(row, parse).value.lon)
  }

  function CountedRows(rows: seq<Row>, parse: Parser): (n: nat)
    ensures n <= WideCount(rows)
  {
    if rows == [] then 0 else (if Counted(rows[0], parse) then 1 else 0) + CountedRows(rows[1..], parse)
  }

  function CountedKeys(rows: seq<Row>, parse: Parser): set<Timestamp>
  {
    if rows == [] then {} else (if Counted(rows[0], parse) then {rows[0][0]} else {}) + CountedKeys(rows[1..], parse)
  }

  /** One iteration: the exception, or the table after it and the counter increment. */
  datatype Outcome = Raised | Continue(table: Table, increment: nat)

  /** One iteration of the row loop. */
  function RowStep(t: Table, row: Row, parse: Parser): (o: Outcome)
    requires WellKeyedTable(t)
    ensures o.Raised? <==> Fails(row, parse)
    ensures o.Continue? ==>
      WellKeyedTable(o.table)
      && o.table.Keys == t.Keys + (if Counted(row, parse) then {row[0]} else {})
      && o.increment == (if Counted(row, parse) then 1 else 0)
      && |o.table| <= |t| + o.increment
      && (forall k :: k in t ==> o.table[k] == t[k])
      && (forall k :: k in o.table && k !in t ==>
            k == row[0] && InMarmara(o.table[k].lat, o.table[k].lon) && o.table[k].depth == row[3])
    ensures Counted(row, parse) && row[0] !in t ==> o.Continue? && o.table[row[0]] == ParseRecord(row, parse).value
  {
    if !Wide(row) then Continue(t, 0)
    else
      var rec := ParseRecord(row, parse);
      if rec.None? then Raised
      else if InMarmara(rec.value.lat, rec.value.lon) then Continue(SaveEarthquake(t, rec.value), 1)
      else Continue(t, 0)
  }

  /** The table after the loop, the counter, and whether an exception ended it. */
  datatype Run = Run(table: Table, count: nat, aborted: bool)

  /**
    The row loop of `fetch_afad`. Without a failing row every counted row is
    saved; with one, the rows before it are saved and the rest are never
    looked at. New keys are in-region.
   */
  function UpdateRows(t: Table, rows: seq<Row>, parse: Parser): (r: Run)
    requires WellKeyedTable(t)
    ensures WellKeyedTable(r.table)
    ensures !r.aborted ==> r.count == CountedRows(rows, parse)
    ensures r.count <= WideCount(rows)
    ensures forall k :: k in t ==> k in r.table && r.table[k] == t[k]
    ensures forall k :: k in r.table && k !in t ==> InMarmara(r.table[k].lat, r.table[k].lon)
    decreases |rows|
  {
    if rows == [] then Run(t, 0, false)
    else
      match RowStep(t, rows[0], parse)
      case Raised => Run(t, 0, true)
      case Continue(next, increment) =>
        var rest := UpdateRows(next, rows[1..], parse);
        Run(rest.table, rest.count + increment, rest.aborted)
  }

  /** A run that is not abandoned adds exactly the timestamps of its counted rows. */
  lemma {:induction false} UpdatedKeys(t: Table, rows: seq<Row>, parse: Parser)
    requires WellKeyedTable(t)
    ensures !UpdateRows(t, rows, parse).aborted ==>
      UpdateRows(t, rows, parse).table.Keys == t.Keys + CountedKeys(rows, parse)
    decreases |rows|
  {
    if rows != [] {
      var o := RowStep(t, rows[0], parse);
      if o.Continue? {
        UpdatedKeys(o.table, rows[1..], parse);
        StepKeys(t, rows, parse);
      }
    }
  }

  /** The key-set equation carries over one iteration of the loop. */
  lemma StepKeys(t: Table, rows: seq<Row>, parse: Parser)
    requires WellKeyedTable(t) && rows != [] && RowStep(t, rows[0], parse).Continue?
    requires var o := RowStep(t, rows[0], parse);
      !UpdateRows(o.table, rows[1..], parse).aborted ==>
      UpdateRows(o.table, rows[1..], parse).table.Keys == o.table.Keys + CountedKeys(rows[1..], parse)
    ensures !UpdateRows(t, rows, parse).aborted ==>
      UpdateRows(t, rows, parse).table.Keys == t.Keys + CountedKeys(rows, parse)
  {
  }

  /** No run stores more new records than it counts: duplicates are counted too. */
  lemma {:induction false} CountCoversNewRecords(t: Table, rows: seq<Row>, parse: Parser)
    requires WellKeyedTable(t)
    ensures |UpdateRows(t, rows, parse).table| <= |t| + UpdateRows(t, rows, parse).count
    decreases |rows|
  {
    if rows != [] {
      var o := RowStep(t, rows[0], parse);
      if o.Continue? {
        CountCoversNewRecords(o.table, rows[1..], parse);
      }
    }
  }

  /** The batch is abandoned exactly when some wide row fails to convert. */
  lemma {:induction false} AbortedIffSomeRowFails(t: Table, rows: seq<Row>, parse: Parser)
    requires WellKeyedTable(t)
    ensures UpdateRows(t, rows, parse).aborted <==> exists i :: 0 <= i < |rows| && Fails(rows[i], parse)
    decreases |rows|
  {
    if rows != [] {
      var o := RowStep(t, rows[0], parse);
      if o.Continue? {
        AbortedIffSomeRowFails(o.table, rows[1..], parse);
        assert forall i :: 1 <= i < |rows| ==> rows[1..][i - 1] == rows[i];
      }
    }
  }

  /** Row `i` is the first counted row with timestamp `k`. */
  ghost predicate FirstCounted(rows: seq<Row>, parse: Parser, i: int, k: Timestamp)
  {
    && 0 <= i < |rows| && Counted(rows[i], parse) && rows[i][0] == k
    && forall j :: 0 <= j < i ==> !(Counted(rows[j], parse) && rows[j][0] == k)
  }

  /**
    Every new record is the conversion of the first counted row with its
    timestamp, and keeps that row's depth text.
   */
  lemma {:induction false} NewRecordsKeepRawDepth(t: Table, rows: seq<Row>, parse: Parser, k: Timestamp)
    requires WellKeyedTable(t)
    ensures k in UpdateRows(t, rows, parse).table && k !in t ==> exists i ::
      && FirstCounted(rows, parse, i, k)
      && UpdateRows(t, rows, parse).table[k] == ParseRecord(rows[i], parse).value
      && UpdateRows(t, rows, parse).table[k].depth == rows[i][3]
    decreases |rows|
  {
    if rows == [] || k !in UpdateRows(t, rows, parse).table || k in t {
      return;
    }
    var r := UpdateRows(t, rows, parse);
    var o := RowStep(t, rows[0], parse);
    var rest := UpdateRows(o.table, rows[1..], parse);
    assert r.table == rest.table;
    if Counted(rows[0], parse) && rows[0][0] == k {
      assert FirstCounted(rows, parse, 0, k);
      assert rest.table[k] == o.table[k];
    } else {
      assert k !in o.table;
      NewRecordsKeepRawDepth(o.table, rows[1..], parse, k);
      var i :| FirstCounted(rows[1..], parse, i, k)
        && rest.table[k] == ParseRecord(rows[1..][i], parse).value;
      assert rows[1..][i] == rows[i + 1];
      forall j | 0 <= j < i + 1
        ensures !(Counted(rows[j], parse) && rows[j][0] == k)
      {
        if j > 0 {
          assert rows[j] == rows[1..][j - 1];
        }
      }
      assert FirstCounted(rows, parse, i + 1, k);
    }
  }

  /**
    The first counted row with a new timestamp is stored under it, provided
    no row before it raises; later rows with that timestamp change nothing.
   */
  lemma {:induction false} FirstCountedIsStored(t: Table, rows: seq<Row>, parse: Parser, i: int)
    requires WellKeyedTable(t)
    requires 0 <= i < |rows| && Wide(rows[i]) && FirstCounted(rows, parse, i, rows[i][0]) && rows[i][0] !in t
    requires forall j :: 0 <= j < i ==> !Fails(rows[j], parse)
    ensures rows[i][0] in UpdateRows(t, rows, parse).table
    ensures UpdateRows(t, rows, parse).table[rows[i][0]] == ParseRecord(rows[i], parse).value
    decreases |rows|
  {
    var o := RowStep(t, rows[0], parse);
    if i == 0 {
      assert o.table[rows[0][0]] == ParseRecord(rows[0], parse).value;
    } else {
      assert !Fails(rows[0], parse);
      assert rows[i][0] !in o.table;
      assert rows[1..][i - 1] == rows[i];
      forall j | 0 <= j < i - 1
        ensures !(Counted(rows[1..][j], parse) && rows[1..][j][0] == rows[i][0])
        ensures !Fails(rows[1..][j], parse)
      {
        assert rows[1..][j] == rows[j + 1];
      }
      FirstCountedIsStored(o.table, rows[1..], parse, i - 1);
    }
  }

  /**
    Rows saved before a failing row stay saved, and nothing after it is
    looked at: the run over `pre + [bad] + rest` ends with the table of `pre`.
   */
  lemma {:induction false} AbortKeepsPrefix(t: Table, pre: seq<Row>, bad: Row, rest: seq<Row>, parse: Parser)
    requires WellKeyedTable(t)
    requires forall i :: 0 <= i < |pre| ==> !Fails(pre[i], parse)
    requires Fails(bad, parse)
    ensures UpdateRows(t, pre + [bad] + rest, parse).aborted
    ensures UpdateRows(t, pre + [bad] + rest, parse).table == UpdateRows(t, pre, parse).table
    decreases |pre|
  {
    var rows := pre + [bad] + rest;
    if pre == [] {
      assert rows[0] == bad;
    } else {
      assert rows[0] == pre[0] && rows[1..] == pre[1..] + [bad] + rest;
      AbortKeepsPrefix(RowStep(t, pre[0], parse).table, pre[1..], bad, rest, parse);
    }
  }

  /** What the endpoint returns: the saved-count message, or one of its error messages. */
  datatype Reply = SavedCount(count: nat) | NoTable | Failed

  /** `fetch_afad` once the page has been fetched; None when the table is missing. */
  function FetchAfad(t: Table, page: Option<seq<Row>>, parse: Parser): (r: (Table, Reply))
    requires WellKeyedTable(t)
    ensures page.None? ==> r == (t, NoTable)
    ensures page.Some? ==>
      var run := UpdateRows(t, DataRows(page.value), parse);
      r.0 == run.table && (r.1 == Failed <==> run.aborted)
      && (!run.aborted ==> r.1 == SavedCount(CountedRows(DataRows(page.value), parse)))
  {
    if page.None? then (t, NoTable)
    else
      var run := UpdateRows(t, DataRows(page.value), parse);
      (run.table, if run.aborted then Failed else SavedCount(run.count))
  }

  /** The first row of the table is the header: it is never converted, whatever it holds. */
  lemma HeaderIsSkipped(t: Table, header: Row, rows: seq<Row>, parse: Parser)
    requires WellKeyedTable(t)
    ensures FetchAfad(t, Some([header] + rows), parse).0 == UpdateRows(t, rows, parse).table
    ensures FetchAfad(t, Some([header] + rows), parse).1 == Failed <==> UpdateRows(t, rows, parse).aborted
  {
    assert DataRows([header] + rows) == rows;
  }

  /** A duplicate in-region row is counted although nothing new is stored. */
  lemma DuplicateIsCounted(t: Table, row: Row, parse: Parser)
    requires WellKeyedTable(t)
    requires Counted(row, parse) && row[0] in t
    ensures UpdateRows(t, [row], parse).count == 1
    ensures UpdateRows(t, [row], parse).table == t
  {
    assert [row][1..] == [];
  }
}
