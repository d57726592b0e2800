/**
  The per-cluster report: member count, centroid and the strongest member.

  `analyze_spatial_clustering_advanced` picks the strongest member with `eq[5] > max_mag_eq[5]`, which
  raises when a member has no magnitude. `StrongestAsWritten` models that
  loop; `Strongest` is the intended choice that skips absent magnitudes, and
  it is the one the summary uses.
 */
module ClusterSummary {
  import opened Wrappers
  import opened Catalog
  import opened Stats
  import opened Region

  /** The outcome of the strongest-event loop of `analyze_spatial_clustering_advanced`: it raises, or it picks a position. */
  datatype Pick = Raises | Picked(pos: nat)

  /**
    The selection loop as written: the first member is taken unconditionally,
    every later member is compared with `>`, and a comparison that involves
    an absent magnitude raises.
   */
  function StrongestAsWritten(ms: seq<Option<real>>): (r: Pick)
    requires |ms| >= 1
    ensures r.Picked? ==> r.pos < |ms|
    ensures |ms| == 1 ==> r == Picked(0)
    ensures |ms| >= 2 ==> (r.Raises? <==> exists k :: 0 <= k < |ms| && ms[k].None?)
    decreases |ms|
  {
    if |ms| == 1 then Picked(0)
    else
      var last := |ms| - 1;
      var front := ms[..last];
      assert forall k :: 0 <= k < last ==> front[k] == ms[k];
      match StrongestAsWritten(front)
      case Raises => Raises
      case Picked(p) =>
        if ms[last].None? || ms[p].None? then Raises
        else if ms[last].value > ms[p].value then Picked(last)
        else Picked(p)
  }

  /**
    The intended choice: the first position, in member order, whose magnitude
    is the largest present one; None when no member has a magnitude.
   */
  function Strongest(ms: seq<Option<real>>): (r: Option<nat>)
    ensures r.None? <==> forall k :: 0 <= k < |ms| ==> ms[k].None?
    ensures r.Some? ==> r.value < |ms| && ms[r.value].Some?
    ensures r.Some? ==> forall k :: 0 <= k < |ms| && ms[k].Some? ==> ms[k].value <= ms[r.value].value
    ensures r.Some? ==> forall k :: 0 <= k < r.value && ms[k].Some? ==> ms[k].value < ms[r.value].value
    decreases |ms|
  {
    if ms == [] then None
    else
      var last := |ms| - 1;
      var front := ms[..last];
      assert forall k :: 0 <= k < last ==> front[k] == ms[k];
      var prev := Strongest(front);
      if ms[last].None? then prev
      else if prev.None? then Some(last)
      else if ms[last].value > ms[prev.value].value then Some(last)
      else prev
  }

  /** Two members, the first without a magnitude: the loop as written raises. */
  lemma AbsentMagnitudeRaises()
    ensures StrongestAsWritten([None, Some(3.0)]) == Raises
    ensures Strongest([None, Some(3.0)]) == Some(1)
  {
    assert [None, Some(3.0)][..1] == [None];
  }

  /** When every member has a magnitude the corrected choice is the script's. */
  lemma {:induction false} StrongestAgreesWhenComplete(ms: seq<Option<real>>)
    requires |ms| >= 1
    requires forall k :: 0 <= k < |ms| ==> ms[k].Some?
    ensures Strongest(ms).Some? && StrongestAsWritten(ms) == Picked(Strongest(ms).value)
    decreases |ms|
  {
    var last := |ms| - 1;
    var front := ms[..last];
    assert forall k :: 0 <= k < last ==> front[k] == ms[k];
    if |ms| > 1 {
      StrongestAgreesWhenComplete(front);
    } else {
      assert front == [];
    }
  }

  /** The report for one cluster. */
  datatype Summary = Summary(size: nat, centroidLat: real, centroidLon: real, strongest: Option<Event>)

  /** Every member is an index of the window. */
  ghost predicate Members(ev: seq<Event>, c: seq<nat>)
  {
    forall k :: 0 <= k < |c| ==> c[k] < |ev|
  }

  function Lats(ev: seq<Event>, c: seq<nat>): (r: seq<real>)
    requires Members(ev, c)
    ensures |r| == |c| && forall k :: 0 <= k < |c| ==> r[k] == ev[c[k]].lat
  {
    seq(|c|, k requires 0 <= k < |c| => ev[c[k]].lat)
  }

  function Lons(ev: seq<Event>, c: seq<nat>): (r: seq<real>)
    requires Members(ev, c)
    ensures |r| == |c| && forall k :: 0 <= k < |c| ==> r[k] == ev[c[k]].lon
  {
    seq(|c|, k requires 0 <= k < |c| => ev[c[k]].lon)
  }

  function Magnitudes(ev: seq<Event>, c: seq<nat>): (r: seq<Option<real>>)
    requires Members(ev, c)
    ensures |r| == |c| && forall k :: 0 <= k < |c| ==> r[k] == ev[c[k]].magnitude
  {
    seq(|c|, k requires 0 <= k < |c| => ev[c[k]].magnitude)
  }

  /**
    The member with the largest magnitude, the earliest such member in
    discovery order winning a tie; None when no member has a magnitude.
   */
  function StrongestMember(ev: seq<Event>, c: seq<nat>): (r: Option<Event>)
    requires Members(ev, c)
    ensures r.None? <==> forall k :: 0 <= k < |c| ==> ev[c[k]].magnitude.None?
    ensures r.Some? ==>
      exists p :: 0 <= p < |c| && r.value == ev[c[p]]
        && ev[c[p]].magnitude.Some?
        && (forall q :: 0 <= q < |c| && ev[c[q]].magnitude.Some? ==> ev[c[q]].magnitude.value <= ev[c[p]].magnitude.value)
        && (forall q :: 0 <= q < p && ev[c[q]].magnitude.Some? ==> ev[c[q]].magnitude.value < ev[c[p]].magnitude.value)
  {
    var ms := Magnitudes(ev, c);
    var pick := Strongest(ms);
    if pick.Some? then
      var p := pick.value;
      assert 0 <= p < |c| && ev[c[p]] == ev[c[p]];
      Some(ev[c[p]])
    else None
  }

  /**
    Summary of one reported cluster: the centroid is the unweighted mean of
    member coordinates, so it lies within the members' extent.
   */
  function Summarize(ev: seq<Event>, c: seq<nat>): (s: Summary)
    requires |c| >= 1 && Members(ev, c)
    ensures s.size == |c|
    ensures IsMeanOf(s.centroidLat, Lats(ev, c)) && IsMeanOf(s.centroidLon, Lons(ev, c))
    ensures Min(Lats(ev, c)) <= s.centroidLat <= Max(Lats(ev, c))
    ensures Min(Lons(ev, c)) <= s.centroidLon <= Max(Lons(ev, c))
    ensures s.strongest == StrongestMember(ev, c)
  {
    var lats := Lats(ev, c);
    var lons := Lons(ev, c);
    var lat := Mean(lats);
    var lon := Mean(lons);
    MeanBetweenMinAndMax(lats);
    MeanBetweenMinAndMax(lons);
    Summary(|c|, lat, lon, StrongestMember(ev, c))
  }

  /** The box is convex: a cluster wholly inside the region has its centroid inside. */
  lemma CentroidInRegion(ev: seq<Event>, c: seq<nat>)
    requires |c| >= 1 && Members(ev, c)
    requires forall k :: 0 <= k < |c| ==> InMarmara(ev[c[k]].lat, ev[c[k]].lon)
    ensures InMarmara(Summarize(ev, c).centroidLat, Summarize(ev, c).centroidLon)
  {
    var lats := Lats(ev, c);
    var lons := Lons(ev, c);
    forall y | y in lats
      ensures MinLat <= y <= MaxLat
    {
      var k :| 0 <= k < |lats| && lats[k] == y;
    }
    forall y | y in lons
      ensures MinLon <= y <= MaxLon
    {
      var k :| 0 <= k < |lons| && lons[k] == y;
    }
    MeanWithin(lats, MinLat, MaxLat);
    MeanWithin(lons, MinLon, MaxLon);
  }

  /** The report list, one summary per reported cluster in order. */
  function SummarizeAll(ev: seq<Event>, clusters: seq<seq<nat>>): (r: seq<Summary>)
    requires forall c :: c in clusters ==> |c| >= 1 && Members(ev, c)
    ensures |r| == |clusters|
    ensures forall k :: 0 <= k < |clusters| ==> r[k] == Summarize(ev, clusters[k])
  {
    seq(|clusters|, k requires 0 <= k < |clusters| => Summarize(ev, clusters[k]))
  }
}
