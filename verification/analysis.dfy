/**
  The analysis script end to end: the spatial clustering report over the
  24-hour window, and one run of all four analyses against the store.
 */
module Analysis {
  import opened Wrappers
  import opened Timestamps
  import opened Region
  import opened Catalog
  import opened SeismicRate
  import opened Clustering
  import opened ClusterSummary
  import opened MagnitudeDistribution
  import opened BValue

  /** The b-value analysis also looks 90 days back. */
  const QuarterDays: int := 90

  /** What the clustering analysis reports: nothing to do, or the summaries of the clusters found. */
  datatype ClusterReport = NoRecentEvents | Clusters(events: nat, summaries: seq<Summary>)

  /**
    The clustering analysis on the 24-hour window. An empty window is
    reported as such; otherwise the report summarises, in order, the clusters
    of the breadth-first sweep, and no cluster is reported exactly when every
    event is isolated.
   */
  method AnalyzeSpatialClustering(w24: seq<Event>, dist: Distance) returns (r: ClusterReport)
    requires SymmetricDistance(dist)
    ensures r.NoRecentEvents? <==> w24 == []
    ensures r.Clusters? ==> r.events == |w24|
    ensures r.Clusters? ==> exists cs :: ClusterSweep(w24, dist, cs) && r.summaries == SummarizeAll(w24, cs)
    ensures r.Clusters? ==> (r.summaries == [] <==> forall k: nat :: k < |w24| ==> Isolated(w24, dist, k))
    ensures r.Clusters? ==> forall s :: s in r.summaries ==>
      s.size >= 2 && (s.strongest.Some? ==> s.strongest.value in w24)
    ensures r.Clusters? && (forall e :: e in w24 ==> InMarmara(e.lat, e.lon)) ==>
      forall s :: s in r.summaries ==> InMarmara(s.centroidLat, s.centroidLon)
  {
    if w24 == [] {
      return NoRecentEvents;
    }
    var clusters := FindClusters(w24, dist);
    r := Clusters(|w24|, SummarizeAll(w24, clusters));
    NoClusterIffAllIsolated(w24, dist, clusters);
    AllSummaryFacts(w24, clusters);
  }

  lemma AllSummaryFacts(ev: seq<Event>, clusters: seq<seq<nat>>)
    requires forall c :: c in clusters ==> |c| >= 2 && Members(ev, c)
    ensures forall s :: s in SummarizeAll(ev, clusters) ==>
      s.size >= 2 && (s.strongest.Some? ==> s.strongest.value in ev)
    ensures (forall e :: e in ev ==> InMarmara(e.lat, e.lon)) ==>
      forall s :: s in SummarizeAll(ev, clusters) ==> InMarmara(s.centroidLat, s.centroidLon)
  {
    var summaries := SummarizeAll(ev, clusters);
    forall s | s in summaries
      ensures s.size >= 2 && (s.strongest.Some? ==> s.strongest.value in ev)
      ensures (forall e :: e in ev ==> InMarmara(e.lat, e.lon)) ==> InMarmara(s.centroidLat, s.centroidLon)
    {
      var k :| 0 <= k < |summaries| && summaries[k] == s;
      assert clusters[k] in clusters;
      SummaryFacts(ev, clusters[k]);
    }
  }

  /** A cluster's summary: at least two members, its strongest event from the window, its centroid in the region when all members are. */
  lemma SummaryFacts(ev: seq<Event>, c: seq<nat>)
    requires |c| >= 2 && Members(ev, c)
    ensures Summarize(ev, c).size >= 2
    ensures Summarize(ev, c).strongest.Some? ==> Summarize(ev, c).strongest.value in ev
    ensures (forall e :: e in ev ==> InMarmara(e.lat, e.lon)) ==>
      InMarmara(Summarize(ev, c).centroidLat, Summarize(ev, c).centroidLon)
  {
    var s := Summarize(ev, c);
    if s.strongest.Some? {
      var p :| 0 <= p < |c| && s.strongest.value == ev[c[p]];
    }
    if forall e :: e in ev ==> InMarmara(e.lat, e.lon) {
      forall q | 0 <= q < |c|
        ensures InMarmara(ev[c[q]].lat, ev[c[q]].lon)
      {
        assert ev[c[q]] in ev;
      }
      CentroidInRegion(ev, c);
    }
  }

  /** With every event clustered or isolated, there is no cluster exactly when every event is isolated. */
  lemma NoClusterIffAllIsolated(ev: seq<Event>, dist: Distance, clusters: seq<seq<nat>>)
    requires SymmetricDistance(dist)
    requires ClusterSweep(ev, dist, clusters)
    ensures clusters == [] <==> forall k: nat :: k < |ev| ==> Isolated(ev, dist, k)
  {
    if clusters != [] {
      var c := clusters[0];
      assert c in clusters && c[0] in c;
      MemberIsNotIsolated(ev, dist, c, c[0]);
    }
  }

  /** The five windows one run queries. */
  datatype Windows = Windows(w6: seq<Event>, w24: seq<Event>, w7: seq<Event>, w30: seq<Event>, w90: seq<Event>)

  /** Everything one run of the analysis script reports. */
  datatype Report = Report(
    windows: Windows,
    rate: RateReport,
    clustering: ClusterReport,
    magnitudes: MagnitudeReport,
    bvalues: BValueReport)

  /** `w` is what the windowed query returns for `threshold`. */
  ghost predicate Selected(db: Option<Store>, threshold: Timestamp, w: seq<Event>)
  {
    Ascending(w)
    && (db.None? ==> w == [])
    && (db.Some? ==> forall e :: e in w <==> e.ts in db.value && db.value[e.ts] == e && AtOrAfter(e.ts, threshold))
  }

  /** The thresholds of a single clock reading: a longer lookback reaches further back. */
  ghost predicate OrderedClock(clock: Lookback -> Timestamp)
  {
    AtOrAfter(clock(Hours(RecentHours)), clock(Hours(DayHours)))
    && AtOrAfter(clock(Hours(DayHours)), clock(Days(ShortTermDays)))
    && AtOrAfter(clock(Days(ShortTermDays)), clock(Days(LongTermDays)))
    && AtOrAfter(clock(Days(LongTermDays)), clock(Days(QuarterDays)))
  }

  /** At-or-after is transitive. */
  lemma AtOrAfterTransitive(a: Timestamp, b: Timestamp, c: Timestamp)
    requires AtOrAfter(a, b) && AtOrAfter(b, c)
    ensures AtOrAfter(a, c)
  {
    AtOrAfterMeansLaterOrEqual(a, b);
    AtOrAfterMeansLaterOrEqual(b, c);
    AtOrAfterMeansLaterOrEqual(a, c);
    if a != b && b != c {
      BeforeTransitive(c, b, a);
    }
  }

  /** A window with the later threshold holds only events of the one with the earlier threshold. */
  lemma NestedWindows(db: Option<Store>, t1: Timestamp, t2: Timestamp, w1: seq<Event>, w2: seq<Event>)
    requires Selected(db, t1, w1) && Selected(db, t2, w2) && AtOrAfter(t1, t2)
    ensures forall e :: e in w1 ==> e in w2
  {
    forall e | e in w1
      ensures e in w2
    {
      AtOrAfterTransitive(e.ts, t1, t2);
    }
  }

  /**
    One run of the script: the windows are queried against one clock, then
    the rate, clustering, magnitude and b-value analyses run on them. With
    no readable store every analysis takes its "not enough data" branch.
   */
  method RunAnalysis(db: Option<Store>, clock: Lookback -> Timestamp, dist: Distance, stdev: seq<nat> -> real)
    returns (r: Report)
    requires db.Some? ==> WellKeyed(db.value)
    requires SymmetricDistance(dist)
    ensures Selected(db, clock(Hours(RecentHours)), r.windows.w6)
    ensures Selected(db, clock(Hours(DayHours)), r.windows.w24)
    ensures Selected(db, clock(Days(ShortTermDays)), r.windows.w7)
    ensures Selected(db, clock(Days(LongTermDays)), r.windows.w30)
    ensures Selected(db, clock(Days(QuarterDays)), r.windows.w90)
    ensures r.rate == AnalyzeSeismicRate(r.windows.w6, r.windows.w24, r.windows.w7, r.windows.w30, stdev)
    ensures r.clustering.NoRecentEvents? <==> r.windows.w24 == []
    ensures r.clustering.Clusters? ==> r.clustering.events == |r.windows.w24|
    ensures r.clustering.Clusters? ==>
      exists cs :: ClusterSweep(r.windows.w24, dist, cs) && r.clustering.summaries == SummarizeAll(r.windows.w24, cs)
    ensures r.magnitudes == AnalyzeMagnitudeDistribution(r.windows.w6, r.windows.w24, r.windows.w7, r.windows.w30)
    ensures r.bvalues == AnalyzeBValueTrend(r.windows.w7, r.windows.w30, r.windows.w90)
    ensures OrderedClock(clock) ==> r.magnitudes.comment == MagnitudeComment([], r.windows.w24)
    ensures db.None? ==>
      r.rate.count30d == 0 && r.rate.ratios == NotMeaningful && r.rate.anomaly == InsufficientEvents
      && r.clustering == NoRecentEvents && r.magnitudes.comment == Quiet
      && r.bvalues.week == Estimate(None, None) && r.bvalues.trend == StableOrInsufficient
  {
    var w6 := GetEarthquakesInPeriod(db, clock, Some(RecentHours), None);
    var w24 := GetEarthquakesInPeriod(db, clock, Some(DayHours), None);
    var w7 := GetEarthquakesInPeriod(db, clock, None, Some(ShortTermDays));
    var w30 := GetEarthquakesInPeriod(db, clock, None, Some(LongTermDays));
    var w90 := GetEarthquakesInPeriod(db, clock, None, Some(QuarterDays));
    var rate := AnalyzeSeismicRate(w6, w24, w7, w30, stdev);
    var clustering := AnalyzeSpatialClustering(w24, dist);
    var magnitudes := AnalyzeMagnitudeDistribution(w6, w24, w7, w30);
    var bvalues := AnalyzeBValueTrend(w7, w30, w90);
    r := Report(Windows(w6, w24, w7, w30, w90), rate, clustering, magnitudes, bvalues);
    if OrderedClock(clock) {
      NestedWindows(db, clock(Hours(RecentHours)), clock(Hours(DayHours)), w6, w24);
      CommentDecidedBy24h(w6, w24);
    }
    if db.None? {
      assert UsableMagnitudes(w7) == [];
    }
  }
}
