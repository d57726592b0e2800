/**
  Magnitude-threshold counting over a window and the activity comment that
  the script derives from the 6-hour and 24-hour counts.
 */
module MagnitudeDistribution {
  import opened Wrappers
  import opened Catalog

  const Micro: real := 2.0
  const Moderate: real := 3.0
  const Strong: real := 4.0
  const Larger: real := 5.0

  /** The event has a magnitude and it reaches `threshold`. */
  predicate Qualifies(e: Event, threshold: real)
  {
    e.magnitude.Some? && e.magnitude.value >= threshold
  }

  /** How many events of the window carry a magnitude at all. */
  function Present(es: seq<Event>): (n: nat)
    ensures n <= |es|
  {
    if es == [] then 0
    else Present(es[..|es| - 1]) + (if es[|es| - 1].magnitude.Some? then 1 else 0)
  }

  /**
    `count_by_magnitude`: events whose magnitude is present and at least
    `threshold`. An absent magnitude is never counted.
   */
  function CountByMagnitude(es: seq<Event>, threshold: real): (n: nat)
    ensures n <= Present(es)
    ensures n > 0 <==> exists k :: 0 <= k < |es| && Qualifies(es[k], threshold)
  {
    if es == [] then 0
    else
      var front := es[..|es| - 1];
      var n := CountByMagnitude(front, threshold) + (if Qualifies(es[|es| - 1], threshold) then 1 else 0);
      assert forall k :: 0 <= k < |front| ==> front[k] == es[k];
      n
  }

  /** Raising the threshold never raises the count. */
  lemma {:induction false} CountMonotone(es: seq<Event>, lo: real, hi: real)
    requires lo <= hi
    ensures CountByMagnitude(es, hi) <= CountByMagnitude(es, lo)
    decreases |es|
  {
    if es != [] {
      CountMonotone(es[..|es| - 1], lo, hi);
    }
  }

  /** Counting a concatenation counts each part. */
  lemma {:induction false} CountAppend(a: seq<Event>, b: seq<Event>, threshold: real)
    ensures CountByMagnitude(a + b, threshold) == CountByMagnitude(a, threshold) + CountByMagnitude(b, threshold)
    decreases |b|
  {
    if b == [] {
      assert a + b == a;
    } else {
      var b' := b[..|b| - 1];
      assert (a + b)[..|a + b| - 1] == a + b';
      assert (a + b)[|a + b| - 1] == b[|b| - 1];
      CountAppend(a, b', threshold);
    }
  }

  /** The thresholds reported for the 6-hour and 24-hour windows. */
  const RecentLadder: seq<real> := [Micro, Moderate, Strong, Larger]

  /** The thresholds reported for the 7-day and 30-day windows. */
  const LongLadder: seq<real> := [Moderate, Strong, Larger]

  ghost predicate AscendingThresholds(thresholds: seq<real>)
  {
    forall i, j :: 0 <= i < j < |thresholds| ==> thresholds[i] <= thresholds[j]
  }

  /** One count per threshold; over ascending thresholds the counts do not increase. */
  function Ladder(es: seq<Event>, thresholds: seq<real>): (r: seq<nat>)
    requires AscendingThresholds(thresholds)
    ensures |r| == |thresholds|
    ensures forall i :: 0 <= i < |r| ==> r[i] == CountByMagnitude(es, thresholds[i])
    ensures forall i, j :: 0 <= i < j < |r| ==> r[j] <= r[i]
  {
    var r := seq(|thresholds|, i requires 0 <= i < |thresholds| => CountByMagnitude(es, thresholds[i]));
    forall i, j | 0 <= i < j < |r|
      ensures r[j] <= r[i]
    {
      CountMonotone(es, thresholds[i], thresholds[j]);
    }
    r
  }

  /** The comment on the last 24 hours of activity. */
  datatype Comment = StrongActivity | ModerateActivity | Quiet

  /** Some event of the window reaches `threshold`. */
  ghost predicate AnyReaches(es: seq<Event>, threshold: real)
  {
    exists k :: 0 <= k < |es| && Qualifies(es[k], threshold)
  }

  /**
    A magnitude of at least 4.0 in the 6-hour or 24-hour window is strong
    activity; otherwise at least 3.0 is moderate; otherwise quiet.
   */
  function MagnitudeComment(w6: seq<Event>, w24: seq<Event>): (c: Comment)
    ensures c == StrongActivity <==> AnyReaches(w6, Strong) || AnyReaches(w24, Strong)
    ensures c == ModerateActivity <==>
      !AnyReaches(w6, Strong) && !AnyReaches(w24, Strong) && (AnyReaches(w6, Moderate) || AnyReaches(w24, Moderate))
    ensures c == Quiet <==> !AnyReaches(w6, Moderate) && !AnyReaches(w24, Moderate)
  {
    if CountByMagnitude(w6, Strong) > 0 || CountByMagnitude(w24, Strong) > 0 then StrongActivity
    else if CountByMagnitude(w6, Moderate) > 0 || CountByMagnitude(w24, Moderate) > 0 then ModerateActivity
    else
      StrongIsModerate(w6);
      StrongIsModerate(w24);
      Quiet
  }

  /** An event at or above 4.0 is also at or above 3.0. */
  lemma StrongIsModerate(es: seq<Event>)
    ensures AnyReaches(es, Strong) ==> AnyReaches(es, Moderate)
  {
    if AnyReaches(es, Strong) {
      var k :| 0 <= k < |es| && Qualifies(es[k], Strong);
      assert Qualifies(es[k], Moderate);
    }
  }

  /**
    The 6-hour window is part of the 24-hour one when both come from the same
    store, so its clauses never change the comment.
   */
  lemma CommentDecidedBy24h(w6: seq<Event>, w24: seq<Event>)
    requires forall e :: e in w6 ==> e in w24
    ensures MagnitudeComment(w6, w24) == MagnitudeComment([], w24)
  {
    forall threshold | AnyReaches(w6, threshold)
      ensures AnyReaches(w24, threshold)
    {
      var k :| 0 <= k < |w6| && Qualifies(w6[k], threshold);
      assert w6[k] in w24;
      var j :| 0 <= j < |w24| && w24[j] == w6[k];
    }
  }

  /** What the magnitude analysis reports. */
  datatype MagnitudeReport = MagnitudeReport(
    ladder6h: seq<nat>,
    ladder24h: seq<nat>,
    ladder7d: seq<nat>,
    ladder30d: seq<nat>,
    comment: Comment)

  function AnalyzeMagnitudeDistribution(w6: seq<Event>, w24: seq<Event>, w7: seq<Event>, w30: seq<Event>)
    : (r: MagnitudeReport)
    ensures |r.ladder6h| == 4 && |r.ladder24h| == 4 && |r.ladder7d| == 3 && |r.ladder30d| == 3
    ensures forall i :: 0 <= i < 4 ==>
      r.ladder6h[i] == CountByMagnitude(w6, RecentLadder[i]) && r.ladder24h[i] == CountByMagnitude(w24, RecentLadder[i])
    ensures forall i :: 0 <= i < 3 ==>
      r.ladder7d[i] == CountByMagnitude(w7, LongLadder[i]) && r.ladder30d[i] == CountByMagnitude(w30, LongLadder[i])
    ensures r.comment == MagnitudeComment(w6, w24)
  {
    MagnitudeReport(Ladder(w6, RecentLadder), Ladder(w24, RecentLadder), Ladder(w7, LongLadder),
      Ladder(w30, LongLadder), MagnitudeComment(w6, w24))
  }
}
