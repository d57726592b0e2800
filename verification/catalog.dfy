/**
  The event store and the windowed query every analysis starts from.

  The `earthquakes` table is keyed by its timestamp column (UNIQUE), so it is
  modelled as a map from timestamp to the row stored under it. A window is
  the SELECT ... WHERE tarih >= threshold ORDER BY tarih ASC of `get_earthquakes_in_period`.
 */
module Catalog {
  import opened Wrappers
  import opened Timestamps

  /** One row of the `earthquakes` table: tarih, enlem, boylam, derinlik, tip, buyukluk. */
  datatype Event = Event(
    ts: Timestamp,
    lat: real,
    lon: real,
    depth: real,
    kind: string,
    magnitude: Option<real>)

  type Store = map<Timestamp, Event>

  /** Every row sits under its own timestamp. */
  ghost predicate WellKeyed(store: Store)
  {
    forall k :: k in store ==> store[k].ts == k
  }

  /** Strictly ascending by timestamp (timestamps are unique in the store). */
  predicate Ascending(es: seq<Event>)
  {
    forall a, b :: 0 <= a < b < |es| ==> Before(es[a].ts, es[b].ts)
  }

  /** Inserts `e` at its place in an ascending sequence that lacks its timestamp. */
  function InsertSorted(es: seq<Event>, e: Event): (r: seq<Event>)
    requires Ascending(es)
    requires forall x :: x in es ==> x.ts != e.ts
    ensures Ascending(r)
    ensures |r| == |es| + 1
    ensures forall x :: x in r <==> x in es || x == e
  {
    if es == [] then [e]
    else if Before(e.ts, es[0].ts) then
      assert forall b :: 0 < b < |[e] + es| ==> Before(e.ts, ([e] + es)[b].ts) by {
        forall b | 0 < b < |[e] + es|
          ensures Before(e.ts, ([e] + es)[b].ts)
        {
          if b > 1 {
            BeforeTransitive(e.ts, es[0].ts, es[b - 1].ts);
          }
        }
      }
      [e] + es
    else
      var rest := InsertSorted(es[1..], e);
      assert Before(es[0].ts, e.ts) by {
        BeforeTotal(e.ts, es[0].ts);
      }
      assert forall x :: x in rest ==> Before(es[0].ts, x.ts) by {
        forall x | x in rest
          ensures Before(es[0].ts, x.ts)
        {
          if x != e {
            var b :| 0 <= b < |es[1..]| && es[1..][b] == x;
            assert es[b + 1] == x;
          }
        }
      }
      [es[0]] + rest
  }

  /** All rows of the store at or after `threshold`, oldest first. */
  method SelectSince(store: Store, threshold: Timestamp) returns (r: seq<Event>)
    requires WellKeyed(store)
    ensures Ascending(r)
    ensures forall e :: e in r <==> e.ts in store && store[e.ts] == e && AtOrAfter(e.ts, threshold)
  {
    var pending := store.Keys;
    r := [];
    while pending != {}
      invariant pending <= store.Keys
      invariant Ascending(r)
      invariant forall e :: e in r ==> e.ts in store && store[e.ts] == e && AtOrAfter(e.ts, threshold) && e.ts !in pending
      invariant forall k :: k in store && k !in pending && AtOrAfter(k, threshold) ==> store[k] in r
      decreases pending
    {
      var k :| k in pending;
      pending := pending - {k};
      if AtOrAfter(k, threshold) {
        r := InsertSorted(r, store[k]);
      }
    }
  }

  lemma HeadIsMember(s: seq<Event>)
    requires s != []
    ensures s[0] in s
  {
  }

  /** Two ascending sequences holding the same events are the same sequence. */
  lemma {:induction false} AscendingUnique(a: seq<Event>, b: seq<Event>)
    requires Ascending(a) && Ascending(b)
    requires forall e :: e in a <==> e in b
    ensures a == b
    decreases |a|
  {
    if a == [] {
      if b != [] {
        HeadIsMember(b);
        assert false;
      }
    } else {
      assert a[0] in b;
      assert b != [];
      assert b[0] in a;
      if a[0] != b[0] {
        var i :| 0 <= i < |b| && b[i] == a[0];
        var j :| 0 <= j < |a| && a[j] == b[0];
        assert Before(b[0].ts, a[0].ts);
        assert Before(a[0].ts, b[0].ts);
        BeforeAsymmetric(a[0].ts, b[0].ts);
      }
      forall e
        ensures e in a[1..] <==> e in b[1..]
      {
        if e in a[1..] {
          var i :| 1 <= i < |a| && a[i] == e;
          BeforeIrreflexive(a[0].ts);
          assert e != a[0];
          assert e in b;
        }
        if e in b[1..] {
          var i :| 1 <= i < |b| && b[i] == e;
          BeforeIrreflexive(b[0].ts);
          assert e != b[0];
          assert e in a;
        }
      }
      AscendingUnique(a[1..], b[1..]);
      assert a == [a[0]] + a[1..] && b == [b[0]] + b[1..];
    }
  }

  /** The lookback a caller asks for: `hours=` or `days=`. */
  datatype Lookback = Hours(hours: int) | Days(days: int)

  /** `hours` wins when both are given; neither given is the error case. */
  function ChooseLookback(hours: Option<int>, days: Option<int>): (r: Option<Lookback>)
    ensures r.None? <==> hours.None? && days.None?
    ensures hours.Some? ==> r == Some(Hours(hours.value))
    ensures hours.None? && days.Some? ==> r == Some(Days(days.value))
  {
    if hours.Some? then Some(Hours(hours.value))
    else if days.Some? then Some(Days(days.value))
    else None
  }

  /**
    The windowed accessor. `db` is None when the query raises; `clock` gives
    the formatted text of now - lookback.
   */
  method GetEarthquakesInPeriod(db: Option<Store>, clock: Lookback -> Timestamp, hours: Option<int>, days: Option<int>)
    returns (r: seq<Event>)
    requires db.Some? ==> WellKeyed(db.value)
    ensures hours.None? && days.None? ==> r == []
    ensures db.None? ==> r == []
    ensures Ascending(r)
    ensures db.Some? && hours.Some? ==>
      forall e :: e in r <==> e.ts in db.value && db.value[e.ts] == e && AtOrAfter(e.ts, clock(Hours(hours.value)))
    ensures db.Some? && hours.None? && days.Some? ==>
      forall e :: e in r <==> e.ts in db.value && db.value[e.ts] == e && AtOrAfter(e.ts, clock(Days(days.value)))
  {
    var lookback := ChooseLookback(hours, days);
    if lookback.None? {
      return [];
    }
    var threshold := clock(lookback.value);
    if db.None? {
      return [];
    }
    r := SelectSince(db.value, threshold);
  }

  /** Re-running a query on an unchanged store gives the identical window. */
  lemma WindowIsDetermined(store: Store, threshold: Timestamp, r1: seq<Event>, r2: seq<Event>)
    requires Ascending(r1) && Ascending(r2)
    requires forall e :: e in r1 <==> e.ts in store && store[e.ts] == e && AtOrAfter(e.ts, threshold)
    requires forall e :: e in r2 <==> e.ts in store && store[e.ts] == e && AtOrAfter(e.ts, threshold)
    ensures r1 == r2
  {
    AscendingUnique(r1, r2);
  }
}
