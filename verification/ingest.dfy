/**
  The batch ingestion script: every data row with at least six cells is
  processed, converted with '-' and empty depth or magnitude read as 0.0,
  filtered to the Marmara box and inserted with INSERT OR IGNORE into the
  store keyed by timestamp. A conversion failure is caught per row.
 */
module Ingest {
  import opened Wrappers
  import opened Timestamps
  import opened Catalog
  import opened Region
  import opened ScrapedRows

  /** Depth and magnitude cells that the script reads as 0.0. */
  predicate Blank(s: string)
  {
    s == "" || s == "-"
  }

  /** `float(s) if s and s != '-' else 0.0` */
  function NormaliseField(s: string, parse: Parser): (r: Option<real>)
    ensures Blank(s) ==> r == Some(0.0)
    ensures !Blank(s) ==> r == parse(s)
  {
    if s != "" && s != "-" then parse(s) else Some(0.0)
  }

  /**
    The conversions of one row. Latitude and longitude must parse; depth and
    magnitude are normalised, so a stored magnitude is never absent.
   */
  function ParseRow(row: Row, parse: Parser): (r: Option<Event>)
    requires Wide(row)
    ensures r.Some? <==>
      parse(row[1]).Some? && parse(row[2]).Some?
      && NormaliseField(row[3], parse).Some? && NormaliseField(row[5], parse).Some?
    ensures r.Some? ==>
      r.value.ts == row[0] && r.value.kind == row[4]
      && r.value.lat == parse(row[1]).value && r.value.lon == parse(row[2]).value
      && r.value.magnitude.Some?
      && (Blank(row[3]) ==> r.value.depth == 0.0)
      && (Blank(row[5]) ==> r.value.magnitude == Some(0.0))
      && (!Blank(row[3]) ==> Some(r.value.depth) == parse(row[3]))
      && (!Blank(row[5]) ==> r.value.magnitude == parse(row[5]))
  {
    var lat := parse(row[1]);
    var lon := parse(row[2]);
    var depth := NormaliseField(row[3], parse);
    var magnitude := NormaliseField(row[5], parse);
    if lat.Some? && lon.Some? && depth.Some? && magnitude.Some? then
      Some(Event(row[0], lat.value, lon.value, depth.value, row[4], Some(magnitude.value)))
    else
      None
  }

  /** The store after a save, and what the save returned (None when there is no cursor). */
  datatype Saved = Saved(db: Option<Store>, inserted: Option<bool>)

  /**
    `save_earthquake_to_db`: without a cursor nothing happens and the result
    is None; a fresh timestamp is inserted and reported True; an existing
    timestamp leaves the store untouched and is reported False.
   */
  function SaveToDb(db: Option<Store>, e: Event): (r: Saved)
    ensures db.None? <==> r.inserted.None?
    ensures db.None? ==> r.db.None?
    ensures db.Some? ==> r.db.Some? && r.db.value.Keys == db.value.Keys + {e.ts}
    ensures db.Some? ==> forall k :: k in db.value ==> r.db.value[k] == db.value[k]
    ensures r.inserted == Some(true) <==> db.Some? && e.ts !in db.value
    ensures r.inserted == Some(true) ==> r.db.value[e.ts] == e && |r.db.value| == |db.value| + 1
    ensures r.inserted == Some(false) ==> r.db == db
  {
    if db.None? then Saved(None, None)
    else if e.ts in db.value then Saved(db, Some(false))
    else Saved(Some(db.value[e.ts := e]), Some(true))
  }

  /** The store and the two counters of the batch loop. */
  datatype Batch = Batch(store: Store, added: nat, processed: nat)

  /** The row is converted and lies in the region, so it reaches the save. */
  predicate Accepted(row: Row, parse: Parser)
  {
    Wide(row) && ParseRow(row, parse).Some? && InMarmara(ParseRow(row, parse).value.lat, ParseRow(row, parse).value.lon)
  }

  /**
    One iteration of the row loop: a wide row is counted, and an accepted
    row's timestamp is in the store afterwards; `added` grows with the store.
   */
  function Step(b: Batch, row: Row, parse: Parser): (r: Batch)
    requires WellKeyed(b.store)
    ensures WellKeyed(r.store)
    ensures r.processed == b.processed + (if Wide(row) then 1 else 0)
    ensures r.store.Keys == b.store.Keys + (if Accepted(row, parse) then {row[0]} else {})
    ensures |b.store| <= |r.store| && r.added == b.added + (|r.store| - |b.store|)
    ensures r.added - b.added <= r.processed - b.processed
    ensures forall k :: k in b.store ==> r.store[k] == b.store[k]
    ensures forall k :: k in r.store && k !in b.store ==>
      InMarmara(r.store[k].lat, r.store[k].lon) && r.store[k].magnitude.Some?
    ensures Accepted(row, parse) && row[0] !in b.store ==> r.store[row[0]] == ParseRow(row, parse).value
  {
    if !Wide(row) then b
    else
      var counted := b.(processed := b.processed + 1);
      var e := ParseRow(row, parse);
      if e.None? || !InMarmara(e.value.lat, e.value.lon) then counted
      else
        var saved := SaveToDb(Some(b.store), e.value);
        if saved.inserted == Some(true) then Batch(saved.db.value, b.added + 1, counted.processed)
        else counted
  }

  /** The timestamps of the accepted rows. */
  function AcceptedKeys(rows: seq<Row>, parse: Parser): set<Timestamp>
  {
    if rows == [] then {}
    else (if Accepted(rows[0], parse) then {rows[0][0]} else {}) + AcceptedKeys(rows[1..], parse)
  }

  /**
    The row loop, from a given starting batch. Existing rows never change,
    new rows are in-region with a magnitude, `processed` counts the wide rows
    and `added` counts exactly the new keys.
   */
  function Ingest(b: Batch, rows: seq<Row>, parse: Parser): (r: Batch)
    requires WellKeyed(b.store)
    ensures WellKeyed(r.store)
    ensures r.processed == b.processed + WideCount(rows)
    ensures |b.store| <= |r.store| && r.added == b.added + (|r.store| - |b.store|)
    ensures r.added - b.added <= r.processed - b.processed
    ensures forall k :: k in b.store ==> k in r.store && r.store[k] == b.store[k]
    ensures forall k :: k in r.store && k !in b.store ==>
      InMarmara(r.store[k].lat, r.store[k].lon) && r.store[k].magnitude.Some?
    ensures r.store.Keys == b.store.Keys + AcceptedKeys(rows, parse)
    decreases |rows|
  {
    if rows == [] then b
    else
      var next := Step(b, rows[0], parse);
      Ingest(next, rows[1..], parse)
  }

  /** Row `i` is the first accepted row with timestamp `k`. */
  ghost predicate FirstAccepted(rows: seq<Row>, parse: Parser, i: int, k: Timestamp)
  {
    && 0 <= i < |rows| && Accepted(rows[i], parse) && rows[i][0] == k
    && forall j :: 0 <= j < i ==> !(Accepted(rows[j], parse) && rows[j][0] == k)
  }

  /**
    The first accepted row with a new timestamp is the one stored under it,
    with a blank depth or magnitude stored as 0.0; later rows with the same
    timestamp are ignored.
   */
  lemma {:induction false} FirstAcceptedIsStored(b: Batch, rows: seq<Row>, parse: Parser, i: int)
    requires WellKeyed(b.store)
    requires 0 <= i < |rows| && Wide(rows[i]) && FirstAccepted(rows, parse, i, rows[i][0]) && rows[i][0] !in b.store
    ensures rows[i][0] in Ingest(b, rows, parse).store
    ensures Ingest(b, rows, parse).store[rows[i][0]] == ParseRow(rows[i], parse).value
    ensures Blank(rows[i][3]) ==> Ingest(b, rows, parse).store[rows[i][0]].depth == 0.0
    ensures Blank(rows[i][5]) ==> Ingest(b, rows, parse).store[rows[i][0]].magnitude == Some(0.0)
    decreases |rows|
  {
    var next := Step(b, rows[0], parse);
    if i == 0 {
      assert next.store[rows[0][0]] == ParseRow(rows[0], parse).value;
    } else {
      assert rows[i][0] !in next.store;
      assert rows[1..][i - 1] == rows[i];
      forall j | 0 <= j < i - 1
        ensures !(Accepted(rows[1..][j], parse) && rows[1..][j][0] == rows[i][0])
      {
        assert rows[1..][j] == rows[j + 1];
      }
      FirstAcceptedIsStored(next, rows[1..], parse, i - 1);
    }
  }

  /** Conversely, every timestamp new to the store holds the first accepted row with it. */
  lemma NewRecordIsFirstAccepted(b: Batch, rows: seq<Row>, parse: Parser, k: Timestamp)
    requires WellKeyed(b.store)
    ensures k in Ingest(b, rows, parse).store && k !in b.store ==>
      exists i :: FirstAccepted(rows, parse, i, k) && Ingest(b, rows, parse).store[k] == ParseRow(rows[i], parse).value
  {
    if k in Ingest(b, rows, parse).store && k !in b.store {
      NewKeyOrigin(b, rows, parse, k);
    }
  }

  lemma {:induction false} NewKeyOrigin(b: Batch, rows: seq<Row>, parse: Parser, k: Timestamp)
    requires WellKeyed(b.store)
    requires k in Ingest(b, rows, parse).store && k !in b.store
    ensures exists i :: FirstAccepted(rows, parse, i, k) && Ingest(b, rows, parse).store[k] == ParseRow(rows[i], parse).value
    decreases |rows|
  {
    var next := Step(b, rows[0], parse);
    if Accepted(rows[0], parse) && rows[0][0] == k {
      assert FirstAccepted(rows, parse, 0, k);
      FirstAcceptedIsStored(b, rows, parse, 0);
    } else {
      assert k !in next.store;
      NewKeyOrigin(next, rows[1..], parse, k);
      var i :| FirstAccepted(rows[1..], parse, i, k)
        && Ingest(next, rows[1..], parse).store[k] == ParseRow(rows[1..][i], parse).value;
      FirstAcceptedShift(rows, parse, i, k);
    }
  }

  /** A first accepted row of the tail stays first when a non-matching row is put in front. */
  lemma FirstAcceptedShift(rows: seq<Row>, parse: Parser, i: int, k: Timestamp)
    requires |rows| > 0 && !(Accepted(rows[0], parse) && rows[0][0] == k)
    requires FirstAccepted(rows[1..], parse, i, k)
    ensures FirstAccepted(rows, parse, i + 1, k) && rows[i + 1] == rows[1..][i]
  {
    forall j | 0 <= j < i + 1
      ensures !(Accepted(rows[j], parse) && rows[j][0] == k)
    {
      if j > 0 {
        assert rows[j] == rows[1..][j - 1];
      }
    }
  }

  /** `fetch_and_save_earthquakes` once the page has been fetched; None when the table is missing. */
  function FetchAndSave(store: Store, page: Option<seq<Row>>, parse: Parser): (r: Batch)
    requires WellKeyed(store)
    ensures page.None? ==> r == Batch(store, 0, 0)
    ensures page.Some? ==> r == Ingest(Batch(store, 0, 0), DataRows(page.value), parse)
    ensures r.added <= r.processed
  {
    if page.None? then Batch(store, 0, 0)
    else Ingest(Batch(store, 0, 0), DataRows(page.value), parse)
  }

  /** The first row of the table is the header: it is never converted, whatever it holds. */
  lemma HeaderIsSkipped(store: Store, header: Row, rows: seq<Row>, parse: Parser)
    requires WellKeyed(store)
    ensures FetchAndSave(store, Some([header] + rows), parse) == Ingest(Batch(store, 0, 0), rows, parse)
  {
    assert DataRows([header] + rows) == rows;
  }

  /** The same batch with one more processed row. */
  function CountOne(b: Batch): Batch
  {
    b.(processed := b.processed + 1)
  }

  /** Counting an extra processed row up front changes nothing but the final count. */
  lemma {:induction false} CountOneCommutes(b: Batch, rows: seq<Row>, parse: Parser)
    requires WellKeyed(b.store)
    ensures Ingest(CountOne(b), rows, parse) == CountOne(Ingest(b, rows, parse))
    decreases |rows|
  {
    if rows != [] {
      assert Step(CountOne(b), rows[0], parse) == (
        if Wide(rows[0]) then CountOne(Step(b, rows[0], parse)) else CountOne(b));
      if Wide(rows[0]) {
        CountOneCommutes(Step(b, rows[0], parse), rows[1..], parse);
      } else {
        CountOneCommutes(b, rows[1..], parse);
      }
    }
  }

  /**
    A row whose conversion fails is counted as processed and otherwise
    behaves as if it were absent: the loop carries on with the next row.
   */
  lemma {:induction false} FailedRowIsIsolated(b: Batch, xs: seq<Row>, bad: Row, ys: seq<Row>, parse: Parser)
    requires WellKeyed(b.store)
    requires Wide(bad) && ParseRow(bad, parse).None?
    ensures Ingest(b, xs + [bad] + ys, parse) == CountOne(Ingest(b, xs + ys, parse))
    decreases |xs|
  {
    if xs == [] {
      assert xs + [bad] + ys == [bad] + ys;
      assert ([bad] + ys)[1..] == ys;
      assert xs + ys == ys;
      CountOneCommutes(b, ys, parse);
    } else {
      assert (xs + [bad] + ys)[0] == xs[0] && (xs + [bad] + ys)[1..] == xs[1..] + [bad] + ys;
      assert (xs + ys)[0] == xs[0] && (xs + ys)[1..] == xs[1..] + ys;
      FailedRowIsIsolated(Step(b, xs[0], parse), xs[1..], bad, ys, parse);
    }
  }
}
