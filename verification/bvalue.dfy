/**
  The Gutenberg-Richter b-value estimate of a window (Aki's maximum-likelihood
  formula with a crude completeness magnitude) and the comparison of the
  7-day estimate against the 30-day one.
 */
module BValue {
  import opened Wrappers
  import opened Catalog
  import opened Stats

  /** At least this many usable magnitudes are needed for an estimate. */
  const MinEventsForB: nat := 50

  /** log10(e), rounded as in `calculate_b_value`. */
  const Log10E: real := 0.434

  /** The completeness magnitude sits this far above the smallest magnitude. */
  const McOffset: real := 0.05

  /**
    The digit test `str(m).replace('.', '', 1).isdigit()` on a float. Its text
    is plain digits with at most one point exactly when the value is not
    negative and is printed without an exponent: zero, or at least 1e-4 and
    below 1e16.
   */
  predicate PassesDigitCheck(m: real)
  {
    m == 0.0 || (0.0001 <= m && m < 10000000000000000.0)
  }

  /** Magnitudes that survive both filters of `calculate_b_value`, in window order. */
  function UsableMagnitudes(es: seq<Event>): (r: seq<real>)
    ensures |r| <= |es|
    ensures forall x :: x in r ==> x >= 0.0
    ensures forall x :: x in r <==> exists k :: 0 <= k < |es| && es[k].magnitude == Some(x) && PassesDigitCheck(x)
  {
    if es == [] then []
    else
      var front := es[..|es| - 1];
      var last := es[|es| - 1];
      var rest := UsableMagnitudes(front);
      assert forall k :: 0 <= k < |front| ==> front[k] == es[k];
      if last.magnitude.Some? && PassesDigitCheck(last.magnitude.value) then rest + [last.magnitude.value]
      else rest
  }

  /** One event contributes its magnitude once when it is present and passes the digit test, and nothing otherwise. */
  lemma UsableOne(e: Event)
    ensures e.magnitude.Some? && PassesDigitCheck(e.magnitude.value) ==> UsableMagnitudes([e]) == [e.magnitude.value]
    ensures !(e.magnitude.Some? && PassesDigitCheck(e.magnitude.value)) ==> UsableMagnitudes([e]) == []
  {
  }

  /** The filters work event by event: the usable magnitudes of a concatenation are the two lists joined. */
  lemma {:induction false} UsableAppend(a: seq<Event>, b: seq<Event>)
    ensures UsableMagnitudes(a + b) == UsableMagnitudes(a) + UsableMagnitudes(b)
    decreases |b|
  {
    if b == [] {
      assert a + b == a;
    } else {
      var ab := a + b;
      var front := b[..|b| - 1];
      var last := b[|b| - 1];
      assert ab[..|ab| - 1] == a + front;
      assert ab[|ab| - 1] == last;
      var keep := if last.magnitude.Some? && PassesDigitCheck(last.magnitude.value) then [last.magnitude.value] else [];
      assert UsableMagnitudes(b) == UsableMagnitudes(front) + keep;
      assert UsableMagnitudes(ab) == UsableMagnitudes(a + front) + keep;
      UsableAppend(a, front);
      assert UsableMagnitudes(a) + (UsableMagnitudes(front) + keep) == UsableMagnitudes(a) + UsableMagnitudes(front) + keep;
    }
  }

  /** The pair `(b_value, mc)` that `calculate_b_value` returns. */
  datatype Estimate = Estimate(b: Option<real>, mc: Option<real>)

  /** b times the gap between mean magnitude and completeness magnitude is log10(e). */
  predicate AkiRelation(b: real, mean: real, mc: real)
  {
    b * (mean - mc) == Log10E
  }

  /**
    `calculate_b_value`: nothing below 50 usable magnitudes; otherwise Mc is
    the smallest magnitude plus 0.05, and b exists only when the mean
    magnitude exceeds Mc.
   */
  function CalculateBValue(es: seq<Event>): (r: Estimate)
    ensures r.mc.None? <==> |UsableMagnitudes(es)| < MinEventsForB
    ensures r.mc.None? ==> r.b.None?
    ensures r.mc.Some? ==>
      (r.mc.value - McOffset) in UsableMagnitudes(es)
      && forall x :: x in UsableMagnitudes(es) ==> r.mc.value - McOffset <= x
    ensures r.mc.Some? ==> (r.b.Some? <==> Mean(UsableMagnitudes(es)) > r.mc.value)
    ensures r.b.Some? ==> r.b.value > 0.0 && AkiRelation(r.b.value, Mean(UsableMagnitudes(es)), r.mc.value)
  {
    var ms := UsableMagnitudes(es);
    if |ms| < MinEventsForB then Estimate(None, None)
    else
      var mc := Min(ms) + McOffset;
      var average := Mean(ms);
      if average > mc then
        var b := Log10E / (average - mc);
        assert b * (average - mc) == Log10E;
        Estimate(Some(b), Some(mc))
      else
        Estimate(None, Some(mc))
  }

  /**
    When the usable magnitudes span no more than 0.05 the mean cannot exceed
    Mc, so there is no b-value.
   */
  lemma NarrowSpreadHasNoB(es: seq<Event>)
    requires |UsableMagnitudes(es)| >= MinEventsForB
    requires Max(UsableMagnitudes(es)) - Min(UsableMagnitudes(es)) <= McOffset
    ensures CalculateBValue(es).mc.Some? && CalculateBValue(es).b.None?
  {
    MeanBetweenMinAndMax(UsableMagnitudes(es));
  }

  /** A window whose usable magnitudes are all equal has no b-value. */
  lemma EqualMagnitudesHaveNoB(es: seq<Event>, m: real)
    requires |UsableMagnitudes(es)| >= MinEventsForB
    requires forall x :: x in UsableMagnitudes(es) ==> x == m
    ensures CalculateBValue(es).b.None?
  {
    var ms := UsableMagnitudes(es);
    assert Min(ms) == m && Max(ms) == m;
    NarrowSpreadHasNoB(es);
  }

  /**
    The mean is at most the largest magnitude, so b is at least
    log10(e) / (max - Mc).
   */
  lemma BAtLeastSpreadBound(es: seq<Event>, b: real, mc: real)
    requires CalculateBValue(es) == Estimate(Some(b), Some(mc))
    ensures AtLeastGapBound(b, Max(UsableMagnitudes(es)), mc)
  {
    var ms := UsableMagnitudes(es);
    MeanBetweenMinAndMax(ms);
    WiderGap(b, Mean(ms), Max(ms), mc);
  }

  /** b is at least log10(e) / (max - mc), written without the division. */
  predicate AtLeastGapBound(b: real, max: real, mc: real)
  {
    b * (max - mc) >= Log10E
  }

  lemma WiderGap(b: real, mean: real, max: real, mc: real)
    requires b > 0.0 && mean <= max && AkiRelation(b, mean, mc)
    ensures AtLeastGapBound(b, max, mc)
  {
    assert b * (max - mc) == b * (mean - mc) + b * (max - mean);
  }

  /** The comment comparing the 7-day b-value with the 30-day one. */
  datatype Trend = Lower | Higher | StableOrInsufficient

  /**
    Lower when b7 is more than 10% below b30, else higher when it is more
    than 10% above; anything else, including a missing value, is stable.
   */
  function CompareB(b7: Option<real>, b30: Option<real>): (t: Trend)
    ensures t == Lower <==> b7.Some? && b30.Some? && b7.value < b30.value * 0.9
    ensures t == Higher <==>
      b7.Some? && b30.Some? && b7.value >= b30.value * 0.9 && b7.value > b30.value * 1.1
    ensures t == StableOrInsufficient <==>
      b7.None? || b30.None? || (b30.value * 0.9 <= b7.value && b7.value <= b30.value * 1.1)
  {
    if b7.Some? && b30.Some? && b7.value < b30.value * 0.9 then Lower
    else if b7.Some? && b30.Some? && b7.value > b30.value * 1.1 then Higher
    else StableOrInsufficient
  }

  /**
    With a positive 30-day value the two bands do not overlap, so "higher"
    is exactly "more than 10% above".
   */
  lemma HigherIsTenPercentAbove(b7: Option<real>, b30: Option<real>)
    requires b30.Some? ==> b30.value > 0.0
    ensures CompareB(b7, b30) == Higher <==> b7.Some? && b30.Some? && b7.value > b30.value * 1.1
  {
  }

  /** What the b-value analysis reports. */
  datatype BValueReport = BValueReport(week: Estimate, month: Estimate, quarter: Estimate, trend: Trend)

  /** The b-value analysis over the 7-, 30- and 90-day windows. */
  function AnalyzeBValueTrend(w7: seq<Event>, w30: seq<Event>, w90: seq<Event>): (r: BValueReport)
    ensures r.week == CalculateBValue(w7) && r.month == CalculateBValue(w30) && r.quarter == CalculateBValue(w90)
    ensures r.trend == Higher <==>
      r.week.b.Some? && r.month.b.Some? && r.week.b.value > r.month.b.value * 1.1
    ensures r.trend == Lower <==>
      r.week.b.Some? && r.month.b.Some? && r.week.b.value < r.month.b.value * 0.9
  {
    var week := CalculateBValue(w7);
    var month := CalculateBValue(w30);
    HigherIsTenPercentAbove(week.b, month.b);
    BValueReport(week, month, CalculateBValue(w90), CompareB(week.b, month.b))
  }
}
