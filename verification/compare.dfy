/**
  The two ingestion paths side by side. On rows that both convert, they
  store the same timestamps; their counters differ only in that the update
  endpoint also counts duplicates. A '-' magnitude separates them: the batch
  script stores 0.0, the endpoint abandons the batch.
 */
module IngestComparison {
  import opened Wrappers
  import opened Catalog
  import opened Region
  import opened ScrapedRows
  import opened Ingest
  import opened Update

  /** A wide row converts under both scripts' rules. */
  predicate ConvertsUnderBoth(row: Row, parse: Parser)
  {
    Wide(row) ==>
      parse(row[1]).Some? && parse(row[2]).Some? && parse(row[5]).Some? && NormaliseField(row[3], parse).Some?
  }

  /** On such a row the two scripts make the same region decision and neither raises. */
  lemma SameDecision(row: Row, parse: Parser)
    requires ConvertsUnderBoth(row, parse)
    ensures Accepted(row, parse) <==> Counted(row, parse)
    ensures !Fails(row, parse)
  {
  }

  lemma {:induction false} SameKeys(rows: seq<Row>, parse: Parser)
    requires forall i :: 0 <= i < |rows| ==> ConvertsUnderBoth(rows[i], parse)
    ensures AcceptedKeys(rows, parse) == CountedKeys(rows, parse)
    ensures forall i :: 0 <= i < |rows| ==> !Fails(rows[i], parse)
    decreases |rows|
  {
    if rows != [] {
      SameDecision(rows[0], parse);
      assert forall i :: 1 <= i < |rows| ==> rows[1..][i - 1] == rows[i];
      SameKeys(rows[1..], parse);
      forall i | 0 <= i < |rows|
        ensures !Fails(rows[i], parse)
      {
        SameDecision(rows[i], parse);
      }
    }
  }

  /**
    Started from stores with the same timestamps and fed rows that both
    convert, the two scripts end with the same timestamps, and the batch
    script's added count is at most the endpoint's count, which is at most
    the batch script's processed count.
   */
  lemma VariantsAgree(store: Store, t: Table, rows: seq<Row>, parse: Parser)
    requires WellKeyed(store) && WellKeyedTable(t) && store.Keys == t.Keys
    requires forall i :: 0 <= i < |rows| ==> ConvertsUnderBoth(rows[i], parse)
    ensures !UpdateRows(t, rows, parse).aborted
    ensures Ingest.Ingest(Batch(store, 0, 0), rows, parse).store.Keys == UpdateRows(t, rows, parse).table.Keys
    ensures Ingest.Ingest(Batch(store, 0, 0), rows, parse).added <= UpdateRows(t, rows, parse).count
    ensures UpdateRows(t, rows, parse).count <= Ingest.Ingest(Batch(store, 0, 0), rows, parse).processed
  {
    var b := Ingest.Ingest(Batch(store, 0, 0), rows, parse);
    var run := UpdateRows(t, rows, parse);
    SameKeys(rows, parse);
    AbortedIffSomeRowFails(t, rows, parse);
    UpdatedKeys(t, rows, parse);
    CountCoversNewRecords(t, rows, parse);
    assert |b.store| == |b.store.Keys| == |run.table.Keys| == |run.table|;
    assert |store| == |store.Keys| == |t.Keys| == |t|;
  }

  /**
    A wide in-region row with '-' as magnitude: the batch script stores it
    with magnitude 0.0, the endpoint raises and stores nothing.
   */
  lemma DashMagnitudeDiverges(store: Store, t: Table, row: Row, parse: Parser)
    requires WellKeyed(store) && WellKeyedTable(t)
    requires Wide(row) && row[5] == "-" && !Blank(row[3]) && row[0] !in store
    requires parse(row[1]).Some? && parse(row[2]).Some? && parse(row[3]).Some? && parse("-").None?
    requires InMarmara(parse(row[1]).value, parse(row[2]).value)
    ensures Ingest.Ingest(Batch(store, 0, 0), [row], parse).store[row[0]].magnitude == Some(0.0)
    ensures Ingest.Ingest(Batch(store, 0, 0), [row], parse).added == 1
    ensures UpdateRows(t, [row], parse).aborted && UpdateRows(t, [row], parse).table == t
  {
    assert [row][1..] == [];
    assert Accepted(row, parse);
    var next := Step(Batch(store, 0, 0), row, parse);
    assert Ingest.Ingest(Batch(store, 0, 0), [row], parse) == next;
    assert next.store[row[0]] == ParseRow(row, parse).value;
  }
}
