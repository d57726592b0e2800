/**
  The seismic rate analysis: window counts, long-term baselines, the two rate
  ratios with their guards, the per-day tally of the 30-day window and the
  z-score anomaly test built on it.

  `statistics.stdev` is a parameter (it needs a square root); every other
  quantity is computed here in exact arithmetic.
 */
module SeismicRate {
  import opened Catalog
  import opened Timestamps
  import opened Stats

  const RecentHours: int := 6
  const DayHours: int := 24
  const ShortTermDays: int := 7
  const LongTermDays: int := 30

  /** The thresholds that make a baseline "not too small" and a z-score anomalous. */
  const BaselineFloor: real := 0.1
  const VariationFloor: real := 0.1
  const AnomalyZ: real := 2.0

  /** Long-term average per day: count_30d / 30. */
  function AverageDaily(c30: nat): (r: real)
    ensures 30.0 * r == c30 as real
  {
    c30 as real / 30.0
  }

  /** Long-term average per hour: count_30d / (30 * 24). */
  function AverageHourly(c30: nat): (r: real)
    ensures 720.0 * r == c30 as real
  {
    c30 as real / 720.0
  }

  /** The 24-hour ratio, with the infinite fallback of `analyze_seismic_rate`. */
  datatype Ratio = Finite(value: real) | Infinite

  /** The rate ratios, or the note that the baseline is too small for them. */
  datatype Ratios = NotMeaningful | Computed(ratio6h: real, ratio24h: Ratio)

  /**
    The hourly baseline must exceed 0.1 for any ratio to be reported; the
    24-hour ratio additionally falls back to infinity when the daily baseline
    does not exceed 0.1.
   */
  function RateRatios(c6: nat, c24: nat, c30: nat): (r: Ratios)
    ensures r.Computed? <==> c30 > 72
    ensures r.Computed? ==> r.ratio24h.Finite?
    ensures r.Computed? ==> r.ratio6h * (c30 as real) == 120.0 * (c6 as real)
    ensures r.Computed? ==> r.ratio24h.value * (c30 as real) == 30.0 * (c24 as real)
  {
    var hourly := AverageHourly(c30);
    var daily := AverageDaily(c30);
    if hourly > BaselineFloor then
      DailyGuardFollows(c30);
      var expected6h := hourly * RecentHours as real;
      var r6 := c6 as real / expected6h;
      assert r6 * expected6h == c6 as real;
      var r24 := if daily > BaselineFloor then Finite(c24 as real / daily) else Infinite;
      assert r24.Finite? && r24.value * daily == c24 as real;
      Computed(r6, r24)
    else
      NotMeaningful
  }

  /** Whenever the hourly guard passes, the daily baseline is above 2.4. */
  lemma DailyGuardFollows(c30: nat)
    requires AverageHourly(c30) > BaselineFloor
    ensures AverageDaily(c30) > 2.4
  {
    var h := AverageHourly(c30);
    var d := AverageDaily(c30);
    assert d == 24.0 * h;
  }

  /** One entry of the per-day tally. */
  datatype DayCount = DayCount(day: string, count: nat)

  ghost predicate DistinctDays(t: seq<DayCount>)
  {
    forall i, j :: 0 <= i < j < |t| ==> t[i].day != t[j].day
  }

  ghost predicate Positive(t: seq<DayCount>)
  {
    forall i :: 0 <= i < |t| ==> t[i].count >= 1
  }

  function SumCounts(t: seq<DayCount>): nat
  {
    if t == [] then 0 else t[0].count + SumCounts(t[1..])
  }

  /** The count recorded for day `d`, zero when the day has no entry. */
  function CountOf(t: seq<DayCount>, d: string): nat
  {
    if t == [] then 0 else (if t[0].day == d then t[0].count else 0) + CountOf(t[1..], d)
  }

  function Days(t: seq<DayCount>): (r: seq<string>)
    ensures |r| == |t| && forall i :: 0 <= i < |t| ==> r[i] == t[i].day
  {
    seq(|t|, i requires 0 <= i < |t| => t[i].day)
  }

  /** `daily_counts[d] += 1` on a dict that keeps first-insertion order. */
  function Bump(t: seq<DayCount>, d: string): (r: seq<DayCount>)
    ensures SumCounts(r) == SumCounts(t) + 1
    ensures forall x :: CountOf(r, x) == CountOf(t, x) + (if x == d then 1 else 0)
  {
    if t == [] then [DayCount(d, 1)]
    else if t[0].day == d then [DayCount(d, t[0].count + 1)] + t[1..]
    else [t[0]] + Bump(t[1..], d)
  }

  /** Bumping keeps every existing day at its position and appends nothing but `d`. */
  lemma {:induction false} BumpKeepsOrder(t: seq<DayCount>, d: string)
    ensures |t| <= |Bump(t, d)| <= |t| + 1
    ensures forall i :: 0 <= i < |t| ==> Bump(t, d)[i].day == t[i].day
    ensures |Bump(t, d)| == |t| + 1 ==> Bump(t, d)[|t|] == DayCount(d, 1)
    decreases |t|
  {
    if t != [] && t[0].day != d {
      BumpKeepsOrder(t[1..], d);
    }
  }

  /** The days of a bumped tally are the old days plus `d`. */
  lemma {:induction false} BumpDays(t: seq<DayCount>, d: string)
    ensures forall x :: x in Days(Bump(t, d)) <==> x in Days(t) || x == d
    decreases |t|
  {
    if t != [] {
      DaysCons(t[0], t[1..]);
      assert t == [t[0]] + t[1..];
      if t[0].day != d {
        BumpDays(t[1..], d);
        DaysCons(t[0], Bump(t[1..], d));
      } else {
        DaysCons(DayCount(d, t[0].count + 1), t[1..]);
      }
    }
  }

  /** Bumping keeps every count positive. */
  lemma {:induction false} BumpPositive(t: seq<DayCount>, d: string)
    requires Positive(t)
    ensures Positive(Bump(t, d))
    decreases |t|
  {
    if t != [] && t[0].day != d {
      BumpPositive(t[1..], d);
    }
  }

  /** Bumping keeps one entry per day. */
  lemma {:induction false} BumpDistinct(t: seq<DayCount>, d: string)
    requires DistinctDays(t)
    ensures DistinctDays(Bump(t, d))
    decreases |t|
  {
    if t != [] && t[0].day != d {
      var rest := Bump(t[1..], d);
      BumpDistinct(t[1..], d);
      BumpDays(t[1..], d);
      var r := [t[0]] + rest;
      forall j | 1 <= j < |r|
        ensures r[0].day != r[j].day
      {
        var x := rest[j - 1].day;
        assert x == Days(rest)[j - 1];
        if x != d {
          assert x in Days(t[1..]);
          var i :| 0 <= i < |t| - 1 && Days(t[1..])[i] == x;
          assert t[i + 1].day == x;
        }
      }
    }
  }

  /** The days of a tally with a leading entry. */
  lemma DaysCons(h: DayCount, rest: seq<DayCount>)
    ensures forall x :: x in Days([h] + rest) <==> x == h.day || x in Days(rest)
  {
    var r := [h] + rest;
    assert Days(r) == [h.day] + Days(rest);
  }

  /** How many events of the window fall on day `d`. */
  function Occurrences(w: seq<Event>, d: string): nat
  {
    if w == [] then 0
    else Occurrences(w[..|w| - 1], d) + (if DayKey(w[|w| - 1].ts) == d then 1 else 0)
  }

  /** Some event of the window falls on day `d`. */
  ghost predicate Seen(w: seq<Event>, d: string)
  {
    exists k :: 0 <= k < |w| && DayKey(w[k].ts) == d
  }

  /**
    The per-day tally of a window in first-appearance order: one entry per
    distinct day, each holding that day's number of events.
   */
  function Tally(w: seq<Event>): (t: seq<DayCount>)
    ensures DistinctDays(t) && Positive(t)
    ensures SumCounts(t) == |w|
    ensures forall x :: CountOf(t, x) == Occurrences(w, x)
    ensures forall x :: x in Days(t) <==> Seen(w, x)
  {
    if w == [] then []
    else
      var front := w[..|w| - 1];
      var d := DayKey(w[|w| - 1].ts);
      var t := Bump(Tally(front), d);
      BumpDays(Tally(front), d);
      BumpPositive(Tally(front), d);
      BumpDistinct(Tally(front), d);
      forall x
        ensures Seen(w, x) <==> Seen(front, x) || x == d
      {
        if Seen(w, x) {
          var k :| 0 <= k < |w| && DayKey(w[k].ts) == x;
          if k < |w| - 1 { assert front[k] == w[k]; }
        }
        if Seen(front, x) {
          var k :| 0 <= k < |front| && DayKey(front[k].ts) == x;
          assert w[k] == front[k];
        }
      }
      t
  }

  /**
    The tally keeps first-appearance order: one more event leaves every
    listed day where it was, and a day not seen before goes to the end.
   */
  lemma TallyExtends(w: seq<Event>, e: Event)
    ensures |Tally(w)| <= |Tally(w + [e])|
    ensures Days(Tally(w)) == Days(Tally(w + [e]))[..|Tally(w)|]
    ensures Seen(w, DayKey(e.ts)) ==> |Tally(w + [e])| == |Tally(w)|
    ensures !Seen(w, DayKey(e.ts)) ==>
      |Tally(w + [e])| == |Tally(w)| + 1 && Tally(w + [e])[|Tally(w)|] == DayCount(DayKey(e.ts), 1)
  {
    var d := DayKey(e.ts);
    var t := Tally(w);
    assert (w + [e])[..|w + [e]| - 1] == w;
    assert Tally(w + [e]) == Bump(t, d);
    BumpKeepsOrder(t, d);
    BumpDays(t, d);
    var r := Bump(t, d);
    if Seen(w, d) {
      var p :| 0 <= p < |t| && Days(t)[p] == d;
      assert r[p].day == d;
      assert DistinctDays(r);
    } else {
      var p :| 0 <= p < |r| && Days(r)[p] == d;
      assert forall i :: 0 <= i < |t| ==> Days(r)[i] == Days(t)[i] != d;
      assert p >= |t|;
    }
  }

  /** The per-day counts as reals, the input of `statistics.mean`. */
  function CountsAsReals(t: seq<DayCount>): (r: seq<real>)
    ensures |r| == |t| && forall i :: 0 <= i < |t| ==> r[i] == t[i].count as real
  {
    seq(|t|, i requires 0 <= i < |t| => t[i].count as real)
  }

  /** The per-day counts, the input of `statistics.stdev`. */
  function CountsOf(t: seq<DayCount>): (r: seq<nat>)
    ensures |r| == |t| && forall i :: 0 <= i < |t| ==> r[i] == t[i].count
  {
    seq(|t|, i requires 0 <= i < |t| => t[i].count)
  }

  lemma {:induction false} SumOfCountsAsReals(t: seq<DayCount>)
    ensures Sum(CountsAsReals(t)) == SumCounts(t) as real
    decreases |t|
  {
    if t != [] {
      SumOfCountsAsReals(t[1..]);
      assert CountsAsReals(t)[1..] == CountsAsReals(t[1..]);
    }
  }

  /** The comment on the last 24 hours. */
  datatype Label = Increase | Decrease | Normal

  /** z above 2 is an increase, below -2 a decrease, anything else normal. */
  function Classify(z: real): (l: Label)
    ensures l == Increase <==> z > AnomalyZ
    ensures l == Decrease <==> z < -AnomalyZ
    ensures l == Normal <==> -AnomalyZ <= z <= AnomalyZ
  {
    if z > AnomalyZ then Increase
    else if z < -AnomalyZ then Decrease
    else Normal
  }

  /** Severity rank of a label: decrease, normal, increase. */
  function Rank(l: Label): int
  {
    match l
    case Decrease => 0
    case Normal => 1
    case Increase => 2
  }

  /** A larger z never yields a milder label. */
  lemma ClassifyMonotone(z1: real, z2: real)
    requires z1 <= z2
    ensures Rank(Classify(z1)) <= Rank(Classify(z2))
  {
  }

  /** The outcome of the anomaly test, one constructor per branch of `analyze_seismic_rate`. */
  datatype Anomaly =
    | InsufficientEvents
    | SingleDay
    | LowVariation(days: nat, mean: real, deviation: real)
    | Scored(days: nat, mean: real, deviation: real, z: real, verdict: Label)

  /**
    The anomaly test: at least 30 events in 30 days, at least two distinct
    days, and a per-day standard deviation above 0.1; the 24-hour count is
    then scored against the per-day mean.
   */
  function AnomalyTest(c24: nat, w30: seq<Event>, stdev: seq<nat> -> real): (a: Anomaly)
    ensures a.InsufficientEvents? <==> |w30| < 30
    ensures a.SingleDay? <==> |w30| >= 30 && |Tally(w30)| <= 1
    ensures a.Scored? <==> |w30| >= 30 && |Tally(w30)| >= 2 && stdev(CountsOf(Tally(w30))) > VariationFloor
    ensures (a.LowVariation? || a.Scored?) ==>
      a.days == |Tally(w30)| && EventsPerDay(a.mean, a.days, |w30|)
      && a.deviation == stdev(CountsOf(Tally(w30)))
    ensures a.Scored? ==> a.z * a.deviation == (c24 as real) - a.mean && a.verdict == Classify(a.z)
  {
    if |w30| < 30 then InsufficientEvents
    else
      var t := Tally(w30);
      if |t| <= 1 then SingleDay
      else ScoreDays(c24, |w30|, t, stdev(CountsOf(t)))
  }

  /** `m` is the number of events per active day: `days` copies of it add up to `events`. */
  predicate EventsPerDay(m: real, days: nat, events: nat)
  {
    (days as real) * m == events as real
  }

  /** The branch of the anomaly test that has at least two active days. */
  function ScoreDays(c24: nat, events: nat, t: seq<DayCount>, sd: real): (a: Anomaly)
    requires |t| >= 2 && events == SumCounts(t)
    ensures a.LowVariation? || a.Scored?
    ensures a.Scored? <==> sd > VariationFloor
    ensures a.days == |t| && EventsPerDay(a.mean, a.days, events) && a.deviation == sd
    ensures a.Scored? ==> a.z * a.deviation == (c24 as real) - a.mean && a.verdict == Classify(a.z)
  {
    var days := |t|;
    var mean := Mean(CountsAsReals(t));
    DailyMeanIsEventsPerDay(t, days, events);
    if sd > VariationFloor then
      var z := ((c24 as real) - mean) / sd;
      Scored(days, mean, sd, z, Classify(z))
    else
      LowVariation(days, mean, sd)
  }

  /** The mean of the per-day counts is the number of counted events per day. */
  lemma DailyMeanIsEventsPerDay(t: seq<DayCount>, days: nat, events: nat)
    requires days == |t| && days > 0 && events == SumCounts(t)
    ensures (days as real) * Mean(CountsAsReals(t)) == events as real
  {
    SumOfCountsAsReals(t);
  }

  /** A 24-hour count more than two deviations above the mean is reported as an increase. */
  lemma FarAboveMeanIsIncrease(c24: nat, w30: seq<Event>, stdev: seq<nat> -> real)
    requires AnomalyTest(c24, w30, stdev).Scored?
    requires (c24 as real) > AnomalyTest(c24, w30, stdev).mean + AnomalyZ * AnomalyTest(c24, w30, stdev).deviation
    ensures AnomalyTest(c24, w30, stdev).verdict == Increase
  {
    var a := AnomalyTest(c24, w30, stdev);
    assert a.z * a.deviation > AnomalyZ * a.deviation;
    assert (a.z - AnomalyZ) * a.deviation > 0.0;
  }

  /** A 24-hour count more than two deviations below the mean is reported as a decrease. */
  lemma FarBelowMeanIsDecrease(c24: nat, w30: seq<Event>, stdev: seq<nat> -> real)
    requires AnomalyTest(c24, w30, stdev).Scored?
    requires (c24 as real) < AnomalyTest(c24, w30, stdev).mean - AnomalyZ * AnomalyTest(c24, w30, stdev).deviation
    ensures AnomalyTest(c24, w30, stdev).verdict == Decrease
  {
    var a := AnomalyTest(c24, w30, stdev);
    assert a.z * a.deviation < -AnomalyZ * a.deviation;
    assert (a.z + AnomalyZ) * a.deviation < 0.0;
  }

  /** Everything the rate analysis reports. */
  datatype RateReport = RateReport(
    count6h: nat,
    count24h: nat,
    count7d: nat,
    count30d: nat,
    averageDaily: real,
    averageHourly: real,
    ratios: Ratios,
    anomaly: Anomaly)

  /** The rate analysis over the four windows it queries. */
  function AnalyzeSeismicRate(w6: seq<Event>, w24: seq<Event>, w7: seq<Event>, w30: seq<Event>, stdev: seq<nat> -> real)
    : (r: RateReport)
    ensures r.count6h == |w6| && r.count24h == |w24| && r.count7d == |w7| && r.count30d == |w30|
    ensures 30.0 * r.averageDaily == |w30| as real && 720.0 * r.averageHourly == |w30| as real
    ensures r.ratios.Computed? <==> |w30| > 72
    ensures r.ratios == RateRatios(|w6|, |w24|, |w30|)
    ensures r.anomaly == AnomalyTest(|w24|, w30, stdev)
  {
    RateReport(|w6|, |w24|, |w7|, |w30|, AverageDaily(|w30|), AverageHourly(|w30|),
      RateRatios(|w6|, |w24|, |w30|), AnomalyTest(|w24|, w30, stdev))
  }
}
