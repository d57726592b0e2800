/**
  Event timestamps are the text the scraper stores in the `tarih` column,
  written 'YYYY-MM-DD HH:MM:SS'. The store compares them as TEXT, that is
  character by character (SQLite's BINARY collation), so this module
  defines that order and proves it is a strict total order. For the fixed
  format the textual order is the chronological one.
 */
module Timestamps {

  type Timestamp = string

  /** `a` sorts strictly before `b` in lexicographic character order. */
  predicate Before(a: string, b: string)
    decreases |a|
  {
    if |a| == 0 then |b| > 0
    else if |b| == 0 then false
    else if a[0] != b[0] then a[0] < b[0]
    else Before(a[1..], b[1..])
  }

  /** The SQL test `a >= b` on TEXT. */
  predicate AtOrAfter(a: string, b: string)
  {
    !Before(a, b)
  }

  /** The calendar day of a timestamp: its 'YYYY-MM-DD' prefix. */
  function DayKey(ts: Timestamp): string
  {
    if |ts| >= 10 then ts[..10] else ts
  }

  lemma {:induction false} BeforeIrreflexive(a: string)
    ensures !Before(a, a)
    decreases |a|
  {
    if |a| > 0 {
      BeforeIrreflexive(a[1..]);
    }
  }

  lemma {:induction false} BeforeAsymmetric(a: string, b: string)
    ensures Before(a, b) ==> !Before(b, a)
    decreases |a|
  {
    if |a| > 0 && |b| > 0 && a[0] == b[0] {
      BeforeAsymmetric(a[1..], b[1..]);
    }
  }

  lemma {:induction false} BeforeTransitive(a: string, b: string, c: string)
    requires Before(a, b) && Before(b, c)
    ensures Before(a, c)
    decreases |a|
  {
    if |a| > 0 && a[0] == b[0] && b[0] == c[0] {
      BeforeTransitive(a[1..], b[1..], c[1..]);
    }
  }

  lemma {:induction false} BeforeTotal(a: string, b: string)
    ensures a == b || Before(a, b) || Before(b, a)
    decreases |a|
  {
    if |a| > 0 && |b| > 0 && a[0] == b[0] {
      BeforeTotal(a[1..], b[1..]);
      if a[1..] == b[1..] {
        assert a == [a[0]] + a[1..] && b == [b[0]] + b[1..];
      }
    }
  }

  /** `a >= b` as the store evaluates it is "equal or strictly later". */
  lemma AtOrAfterMeansLaterOrEqual(a: string, b: string)
    ensures AtOrAfter(a, b) <==> a == b || Before(b, a)
  {
    BeforeTotal(a, b);
    BeforeAsymmetric(a, b);
    BeforeIrreflexive(a);
  }
}
