/**
  Spatial clustering of one window's events: a breadth-first sweep over event
  indices with a shared set of processed indices. Two events are adjacent when
  their great-circle distance is at most 20 km; the haversine formula itself is
  a parameter `dist`, assumed symmetric.
 */
module Clustering {
  import opened Wrappers
  import opened Catalog

  const ClusterDistanceKm: real := 20.0

  /** dist(lat1, lon1, lat2, lon2): great-circle distance in km. */
  type Distance = (real, real, real, real) -> real

  ghost predicate SymmetricDistance(dist: Distance)
  {
    forall a, b, c, d :: dist(a, b, c, d) == dist(c, d, a, b)
  }

  /** Events `i` and `j` of the window lie within the clustering distance. */
  predicate Near(ev: seq<Event>, dist: Distance, i: nat, j: nat)
  {
    i < |ev| && j < |ev| && dist(ev[i].lat, ev[i].lon, ev[j].lat, ev[j].lon) <= ClusterDistanceKm
  }

  lemma NearSymmetric(ev: seq<Event>, dist: Distance, i: nat, j: nat)
    requires SymmetricDistance(dist)
    ensures Near(ev, dist, i, j) <==> Near(ev, dist, j, i)
  {
  }

  predicate Distinct(c: seq<nat>)
  {
    forall a, b :: 0 <= a < b < |c| ==> c[a] != c[b]
  }

  ghost predicate Disjoint(c: seq<nat>, d: seq<nat>)
  {
    forall x :: x in c ==> x !in d
  }

  /** No neighbour of a member of `s` lies outside `s`. */
  ghost predicate ClosedSet(ev: seq<Event>, dist: Distance, s: set<nat>)
  {
    forall k, j :: k in s && Near(ev, dist, k, j) ==> j in s
  }

  /** No neighbour of a member of the cluster lies outside the cluster. */
  ghost predicate ClusterClosed(ev: seq<Event>, dist: Distance, c: seq<nat>)
  {
    forall k, j :: k in c && Near(ev, dist, k, j) ==> j in c
  }

  /** Member `m` lies next to a member listed before it. */
  ghost predicate FoundEarlier(ev: seq<Event>, dist: Distance, c: seq<nat>, m: int)
    requires 0 <= m < |c|
  {
    exists p :: 0 <= p < m && Near(ev, dist, c[p], c[m])
  }

  /** Every member after the seed was found next to a member found before it. */
  ghost predicate GrownFromSeed(ev: seq<Event>, dist: Distance, c: seq<nat>)
  {
    forall m :: 0 < m < |c| ==> FoundEarlier(ev, dist, c, m)
  }

  /**
    `parent[m]` is the position of the member whose scan found member `m`.
    The queue is first in, first out, so parents never decrease; one scan
    adds its finds in ascending index order; and a member's parent is the
    earliest member it neighbours, since any earlier neighbour would have
    found it first.
   */
  ghost predicate BreadthFirstParents(ev: seq<Event>, dist: Distance, c: seq<nat>, parent: seq<nat>)
  {
    && |parent| == |c|
    && (forall m {:trigger parent[m]} :: 0 < m < |c| ==> parent[m] < m && Near(ev, dist, c[parent[m]], c[m]))
    && (forall m, p {:trigger parent[m], c[p]} :: 0 < m < |c| && 0 <= p < parent[m] ==> !Near(ev, dist, c[p], c[m]))
    && (forall a, b {:trigger parent[a], parent[b]} :: 0 < a < b < |c| ==> parent[a] < parent[b] || (parent[a] == parent[b] && c[a] < c[b]))
  }

  /** The members are listed in breadth-first discovery order from the seed. */
  ghost predicate BreadthFirst(ev: seq<Event>, dist: Distance, c: seq<nat>)
  {
    exists parent :: BreadthFirstParents(ev, dist, c, parent)
  }

  /** Event `k` has no neighbour besides itself. */
  ghost predicate Isolated(ev: seq<Event>, dist: Distance, k: nat)
  {
    forall j: nat :: j != k ==> !Near(ev, dist, k, j)
  }

  ghost predicate InSomeCluster(clusters: seq<seq<nat>>, k: nat)
  {
    exists c :: c in clusters && k in c
  }

  /** A set of indices below `n` has at most `n` members. */
  lemma {:induction false} BoundedSetSize(s: set<nat>, n: nat)
    requires forall x :: x in s ==> x < n
    ensures |s| <= n
    decreases n
  {
    if n > 0 {
      BoundedSetSize(s - {n - 1}, n - 1);
    }
  }

  /**
    The inner `for j` loop: the not-yet-processed neighbours of `current`,
    in ascending index order.
   */
  method ScanNeighbours(ev: seq<Event>, dist: Distance, current: nat, processed: set<nat>)
    returns (added: seq<nat>, processedOut: set<nat>)
    ensures forall a, b :: 0 <= a < b < |added| ==> added[a] < added[b]
    ensures forall x :: x in added ==> x < |ev| && x !in processed && Near(ev, dist, current, x)
    ensures forall j :: Near(ev, dist, current, j) ==> j in processed || j in added
    ensures forall x :: x in processedOut <==> x in processed || x in added
    ensures |processedOut| == |processed| + |added|
  {
    added := [];
    processedOut := processed;
    for j := 0 to |ev|
      invariant forall a, b :: 0 <= a < b < |added| ==> added[a] < added[b]
      invariant forall a :: 0 <= a < |added| ==> added[a] < j
      invariant forall x :: x in added ==> x !in processed && Near(ev, dist, current, x)
      invariant forall j' :: 0 <= j' < j && Near(ev, dist, current, j') ==> j' in processed || j' in added
      invariant forall x :: x in processedOut <==> x in processed || x in added
      invariant |processedOut| == |processed| + |added|
    {
      if j !in processedOut && Near(ev, dist, current, j) {
        added := added + [j];
        processedOut := processedOut + {j};
      }
    }
  }

  lemma StrictlyAscendingIsDistinct(s: seq<nat>)
    requires forall a, b :: 0 <= a < b < |s| ==> s[a] < s[b]
    ensures Distinct(s)
  {
  }

  /** Appending ascending finds that were not yet processed keeps the members distinct. */
  lemma DistinctGrowth(cluster: seq<nat>, processed: set<nat>, added: seq<nat>)
    requires Distinct(cluster)
    requires forall x :: x in cluster ==> x in processed
    requires forall a, b :: 0 <= a < b < |added| ==> added[a] < added[b]
    requires forall x :: x in added ==> x !in processed
    ensures Distinct(cluster + added)
  {
    StrictlyAscendingIsDistinct(added);
    var grown := cluster + added;
    forall a, b | 0 <= a < b < |grown|
      ensures grown[a] != grown[b]
    {
      if b >= |cluster| && a < |cluster| {
        assert grown[b] in added;
        assert grown[a] in cluster;
      }
    }
  }

  /**
    Scanning the queue head `cluster[head]` and appending its finds keeps the
    breadth-first parent record: every find is new to all earlier members'
    scans, and the finds come in ascending order.
   */
  lemma ParentsStep(ev: seq<Event>, dist: Distance, cluster: seq<nat>, parent: seq<nat>, head: nat,
                    processed: set<nat>, added: seq<nat>, pa: seq<nat>)
    requires head < |cluster|
    requires pa == parent + seq(|added|, _ => head)
    requires BreadthFirstParents(ev, dist, cluster, parent)
    requires forall m :: 0 < m < |cluster| ==> parent[m] < head
    requires forall p, j :: 0 <= p < head && Near(ev, dist, cluster[p], j) ==> j in processed
    requires forall a, b :: 0 <= a < b < |added| ==> added[a] < added[b]
    requires forall x :: x in added ==> x !in processed && Near(ev, dist, cluster[head], x)
    ensures BreadthFirstParents(ev, dist, cluster + added, pa)
    ensures forall m :: 0 < m < |pa| ==> pa[m] < head + 1
  {
    var c := cluster + added;
    forall m | |cluster| <= m < |c|
      ensures pa[m] == head && c[m] == added[m - |cluster|]
      ensures c[m] !in processed && Near(ev, dist, c[head], c[m])
    {
      assert c[m] in added;
    }
    forall m, p | 0 < m < |c| && 0 <= p < pa[m]
      ensures !Near(ev, dist, c[p], c[m])
    {
      if m >= |cluster| {
        assert c[m] !in processed;
      }
    }
  }

  /**
    One pass of the outer loop that starts a new cluster at `i`: a
    breadth-first expansion from `i` over indices outside `before`.
    `processed` is `before` plus the returned cluster.
   */
  method GrowCluster(ev: seq<Event>, dist: Distance, before: set<nat>, i: nat)
    returns (cluster: seq<nat>, processed: set<nat>)
    requires SymmetricDistance(dist)
    requires i < |ev| && i !in before
    requires forall x :: x in before ==> x < |ev|
    requires ClosedSet(ev, dist, before)
    ensures |cluster| >= 1 && cluster[0] == i && Distinct(cluster)
    ensures forall x :: x in cluster ==> x < |ev| && x !in before
    ensures forall x :: x in processed <==> x in before || x in cluster
    ensures ClusterClosed(ev, dist, cluster) && GrownFromSeed(ev, dist, cluster)
    ensures BreadthFirst(ev, dist, cluster)
  {
    cluster := [i];
    ghost var parent: seq<nat> := [0];
    ghost var head := 0;
    processed := before + {i};
    var queue: seq<nat> := [i];
    BoundedSetSize(processed, |ev|);
    while queue != []
      invariant Growing(ev, dist, before, i, cluster, parent, head, processed)
      invariant |processed| <= |ev|
      invariant queue == cluster[head..]
      decreases 2 * (|ev| - |processed|) + |queue|
    {
      ghost var grownParent;
      var added;
      cluster, queue, processed, added, grownParent := ExpandHead(ev, dist, before, i, cluster, parent, head, processed, queue);
      parent := grownParent;
      head := head + 1;
      BoundedSetSize(processed, |ev|);
    }
    GrowthFinished(ev, dist, before, i, cluster, parent, head, processed);
  }

  /**
    The state of the breadth-first loop: members `cluster[..head]` have been
    scanned, every member is new and in range, and `parent` records who found
    whom.
   */
  ghost predicate Growing(ev: seq<Event>, dist: Distance, before: set<nat>, i: nat, cluster: seq<nat>,
                          parent: seq<nat>, head: nat, processed: set<nat>)
  {
    && |cluster| >= 1 && cluster[0] == i && Distinct(cluster)
    && (forall x :: x in cluster ==> x < |ev| && x !in before)
    && (forall x :: x in processed <==> x in before || x in cluster)
    && head <= |cluster|
    && (forall p, j :: 0 <= p < head && Near(ev, dist, cluster[p], j) ==> j in processed)
    && BreadthFirstParents(ev, dist, cluster, parent)
    && (forall m :: 0 < m < |cluster| ==> parent[m] < head)
  }

  /**
    One turn of the breadth-first loop: pop the queue head, scan it, and
    append its finds to both the cluster and the queue.
   */
  method ExpandHead(ev: seq<Event>, dist: Distance, ghost before: set<nat>, ghost i: nat, cluster: seq<nat>,
                    ghost parent: seq<nat>, ghost head: nat, processed: set<nat>, queue: seq<nat>)
    returns (cluster': seq<nat>, queue': seq<nat>, processed': set<nat>, added: seq<nat>, ghost parent': seq<nat>)
    requires Growing(ev, dist, before, i, cluster, parent, head, processed)
    requires queue == cluster[head..] && queue != []
    ensures cluster' == cluster + added
    ensures forall a, b :: 0 <= a < b < |added| ==> added[a] < added[b]
    ensures forall x :: x in added <==> x !in processed && Near(ev, dist, cluster[head], x)
    ensures Growing(ev, dist, before, i, cluster', parent', head + 1, processed')
    ensures queue' == cluster'[head + 1..]
    ensures |processed'| - |processed| == |queue'| - |queue| + 1 >= 0
  {
    var current := queue[0];
    added, processed' := ScanNeighbours(ev, dist, current, processed);
    parent' := parent + seq(|added|, _ => head);
    GrowingStep(ev, dist, before, i, cluster, parent, head, processed, added, processed', parent');
    cluster' := cluster + added;
    queue' := queue[1..] + added;
    assert queue' == cluster'[head + 1..];
  }

  /** Scanning the queue head and appending its finds keeps the loop state. */
  lemma GrowingStep(ev: seq<Event>, dist: Distance, before: set<nat>, i: nat, cluster: seq<nat>,
                    parent: seq<nat>, head: nat, processed: set<nat>,
                    added: seq<nat>, processedOut: set<nat>, grownParent: seq<nat>)
    requires Growing(ev, dist, before, i, cluster, parent, head, processed)
    requires head < |cluster|
    requires forall a, b :: 0 <= a < b < |added| ==> added[a] < added[b]
    requires forall x :: x in added ==> x < |ev| && x !in processed && Near(ev, dist, cluster[head], x)
    requires forall j :: Near(ev, dist, cluster[head], j) ==> j in processed || j in added
    requires forall x :: x in processedOut <==> x in processed || x in added
    requires grownParent == parent + seq(|added|, _ => head)
    ensures Growing(ev, dist, before, i, cluster + added, grownParent, head + 1, processedOut)
  {
    DistinctGrowth(cluster, processed, added);
    ParentsStep(ev, dist, cluster, parent, head, processed, added, grownParent);
    var c := cluster + added;
    assert forall x :: x in c ==> x in cluster || x in added;
    forall p, j | 0 <= p < head + 1 && Near(ev, dist, c[p], j)
      ensures j in processedOut
    {
      assert c[p] == cluster[p];
    }
  }

  /** Once every member has been scanned, the cluster is closed and breadth-first. */
  lemma GrowthFinished(ev: seq<Event>, dist: Distance, before: set<nat>, i: nat, cluster: seq<nat>,
                       parent: seq<nat>, head: nat, processed: set<nat>)
    requires SymmetricDistance(dist)
    requires ClosedSet(ev, dist, before)
    requires Growing(ev, dist, before, i, cluster, parent, head, processed) && head == |cluster|
    ensures ClusterClosed(ev, dist, cluster) && GrownFromSeed(ev, dist, cluster)
    ensures BreadthFirst(ev, dist, cluster)
  {
    assert ClusterClosed(ev, dist, cluster) by {
      forall k, j | k in cluster && Near(ev, dist, k, j)
        ensures j in cluster
      {
        NearSymmetric(ev, dist, k, j);
      }
    }
    assert GrownFromSeed(ev, dist, cluster) by {
      forall m | 0 < m < |cluster|
        ensures FoundEarlier(ev, dist, cluster, m)
      {
        var p := parent[m];
        assert 0 <= p < m && Near(ev, dist, cluster[p], cluster[m]);
      }
    }
  }

  /** What the outer loop of the sweep keeps true after looking at indices below `i`. */
  ghost predicate SweepInvariant(ev: seq<Event>, dist: Distance, i: nat, processed: set<nat>, clusters: seq<seq<nat>>)
  {
    && (forall x :: x in processed ==> x < |ev|)
    && (forall k: nat :: k < i ==> k in processed)
    && ClosedSet(ev, dist, processed)
    && SweepClusters(ev, dist, i, processed, clusters)
    && (forall k :: k in processed ==> InSomeCluster(clusters, k) || Isolated(ev, dist, k))
  }

  /** The clusters reported so far, each seeded below `i` inside `processed`. */
  ghost predicate SweepClusters(ev: seq<Event>, dist: Distance, i: nat, processed: set<nat>, clusters: seq<seq<nat>>)
  {
    && (forall c :: c in clusters ==> |c| >= 2 && Distinct(c) && forall x :: x in c ==> x in processed && x < |ev|)
    && (forall c :: c in clusters ==> c[0] < i && forall m :: 0 <= m < |c| ==> c[0] <= c[m])
    && (forall a, b :: 0 <= a < b < |clusters| ==> clusters[a][0] < clusters[b][0])
    && (forall a, b :: 0 <= a < b < |clusters| ==> Disjoint(clusters[a], clusters[b]))
    && (forall c :: c in clusters ==> ClusterClosed(ev, dist, c) && GrownFromSeed(ev, dist, c) && BreadthFirst(ev, dist, c))
  }

  /** The component grown from `i` is closed, so `processed` stays closed. */
  lemma SweepClosed(ev: seq<Event>, dist: Distance, before: set<nat>, cluster: seq<nat>, processed: set<nat>)
    requires ClosedSet(ev, dist, before) && ClusterClosed(ev, dist, cluster)
    requires forall x :: x in processed <==> x in before || x in cluster
    ensures ClosedSet(ev, dist, processed)
  {
  }

  /** Appending the component grown from `i` keeps the reported list well formed. */
  lemma ReportAppends(ev: seq<Event>, dist: Distance, i: nat, before: set<nat>, clusters: seq<seq<nat>>,
                      cluster: seq<nat>, processed: set<nat>)
    requires SweepClusters(ev, dist, i, before, clusters)
    requires forall k: nat :: k < i ==> k in before
    requires |cluster| >= 2 && cluster[0] == i && Distinct(cluster)
    requires forall x :: x in cluster ==> x < |ev| && x !in before
    requires forall x :: x in processed <==> x in before || x in cluster
    requires ClusterClosed(ev, dist, cluster) && GrownFromSeed(ev, dist, cluster) && BreadthFirst(ev, dist, cluster)
    ensures SweepClusters(ev, dist, i + 1, processed, clusters + [cluster])
  {
    var cs := clusters + [cluster];
    forall m | 0 <= m < |cluster|
      ensures cluster[0] <= cluster[m]
    {
      assert cluster[m] in cluster && cluster[m] !in before;
    }
    forall a, b | 0 <= a < b < |cs|
      ensures Disjoint(cs[a], cs[b]) && cs[a][0] < cs[b][0]
    {
      if b == |clusters| {
        assert cs[a] in clusters;
      }
    }
  }

  /** A grown component of two or more indices is reported. */
  lemma SweepReport(ev: seq<Event>, dist: Distance, i: nat, before: set<nat>, clusters: seq<seq<nat>>,
                    cluster: seq<nat>, processed: set<nat>)
    requires SweepInvariant(ev, dist, i, before, clusters)
    requires i < |ev| && i !in before
    requires |cluster| >= 2 && cluster[0] == i && Distinct(cluster)
    requires forall x :: x in cluster ==> x < |ev| && x !in before
    requires forall x :: x in processed <==> x in before || x in cluster
    requires ClusterClosed(ev, dist, cluster) && GrownFromSeed(ev, dist, cluster) && BreadthFirst(ev, dist, cluster)
    ensures SweepInvariant(ev, dist, i + 1, processed, clusters + [cluster])
  {
    var cs := clusters + [cluster];
    SweepClosed(ev, dist, before, cluster, processed);
    ReportAppends(ev, dist, i, before, clusters, cluster, processed);
    forall k | k in processed
      ensures InSomeCluster(cs, k) || Isolated(ev, dist, k)
    {
      if k in cluster {
        assert cluster in cs;
      } else if InSomeCluster(clusters, k) {
        var c :| c in clusters && k in c;
        assert c in cs;
      }
    }
  }

  /** A grown component of one index is dropped; that index has no neighbour. */
  lemma SweepDrop(ev: seq<Event>, dist: Distance, i: nat, before: set<nat>, clusters: seq<seq<nat>>,
                  cluster: seq<nat>, processed: set<nat>)
    requires SweepInvariant(ev, dist, i, before, clusters)
    requires i < |ev| && i !in before
    requires cluster == [i]
    requires forall x :: x in processed <==> x in before || x in cluster
    requires ClusterClosed(ev, dist, cluster)
    ensures SweepInvariant(ev, dist, i + 1, processed, clusters)
  {
    SweepClosed(ev, dist, before, cluster, processed);
    assert Isolated(ev, dist, i);
  }

  /**
    What the sweep reports: clusters of two or more distinct window indices,
    each seeded at its smallest index, ordered by seed, pairwise disjoint,
    closed under nearness and listed in breadth-first discovery order; every
    index outside them has no neighbour.
   */
  ghost predicate ClusterSweep(ev: seq<Event>, dist: Distance, clusters: seq<seq<nat>>)
  {
    && (forall c :: c in clusters ==> |c| >= 2 && Distinct(c) && forall k :: 0 <= k < |c| ==> c[k] < |ev|)
    && (forall c :: c in clusters ==> forall m :: 0 <= m < |c| ==> c[0] <= c[m])
    && (forall a, b :: 0 <= a < b < |clusters| ==> clusters[a][0] < clusters[b][0])
    && (forall a, b :: 0 <= a < b < |clusters| ==> Disjoint(clusters[a], clusters[b]))
    && (forall c :: c in clusters ==> ClusterClosed(ev, dist, c) && GrownFromSeed(ev, dist, c) && BreadthFirst(ev, dist, c))
    && (forall k: nat :: k < |ev| ==> InSomeCluster(clusters, k) || Isolated(ev, dist, k))
  }

  /**
    `analyze_spatial_clustering_advanced`: the reported clusters, each a list
    of window indices in discovery order, singletons dropped.
   */
  method FindClusters(ev: seq<Event>, dist: Distance) returns (clusters: seq<seq<nat>>)
    requires SymmetricDistance(dist)
    ensures ev == [] ==> clusters == []
    ensures ClusterSweep(ev, dist, clusters)
  {
    clusters := [];
    if ev == [] {
      return;
    }
    var processed: set<nat> := {};
    for i := 0 to |ev|
      invariant SweepInvariant(ev, dist, i, processed, clusters)
    {
      if i in processed {
        continue;
      }
      ghost var before := processed;
      var cluster;
      cluster, processed := GrowCluster(ev, dist, processed, i);
      if |cluster| > 1 {
        SweepReport(ev, dist, i, before, clusters, cluster, processed);
        clusters := clusters + [cluster];
      } else {
        SweepDrop(ev, dist, i, before, clusters, cluster, processed);
      }
    }
    forall c | c in clusters
      ensures forall k :: 0 <= k < |c| ==> c[k] < |ev|
    {
      assert forall k :: 0 <= k < |c| ==> c[k] in c;
    }
  }

  /** A path of window indices, each step between neighbours. */
  ghost predicate IsChain(ev: seq<Event>, dist: Distance, path: seq<nat>)
  {
    |path| >= 1 && forall k :: 0 <= k < |path| - 1 ==> Near(ev, dist, path[k], path[k + 1])
  }

  /** Events `a` and `b` are linked by a chain of neighbours. */
  ghost predicate Connected(ev: seq<Event>, dist: Distance, a: nat, b: nat)
  {
    exists path :: IsChain(ev, dist, path) && path[0] == a && path[|path| - 1] == b
  }

  /** Builds the chain from the seed to member `m` through the discovery parents. */
  lemma {:induction false} ChainFromSeed(ev: seq<Event>, dist: Distance, c: seq<nat>, m: nat) returns (path: seq<nat>)
    requires GrownFromSeed(ev, dist, c)
    requires m < |c|
    ensures IsChain(ev, dist, path) && path[0] == c[0] && path[|path| - 1] == c[m]
    ensures forall x :: x in path ==> x in c
    decreases m
  {
    if m == 0 {
      path := [c[0]];
    } else {
      assert FoundEarlier(ev, dist, c, m);
      var p :| 0 <= p < m && Near(ev, dist, c[p], c[m]);
      var prefix := ChainFromSeed(ev, dist, c, p);
      path := prefix + [c[m]];
      forall k | 0 <= k < |path| - 1
        ensures Near(ev, dist, path[k], path[k + 1])
      {
        if k < |prefix| - 1 {
          assert path[k] == prefix[k] && path[k + 1] == prefix[k + 1];
        }
      }
    }
  }

  /** Under a symmetric distance a chain read backwards is a chain. */
  lemma ReverseChain(ev: seq<Event>, dist: Distance, path: seq<nat>) returns (back: seq<nat>)
    requires SymmetricDistance(dist)
    requires IsChain(ev, dist, path)
    ensures IsChain(ev, dist, back) && back[0] == path[|path| - 1] && back[|back| - 1] == path[0]
    ensures |back| == |path| && forall k :: 0 <= k < |path| ==> back[k] == path[|path| - 1 - k]
  {
    back := seq(|path|, k requires 0 <= k < |path| => path[|path| - 1 - k]);
    forall k | 0 <= k < |back| - 1
      ensures Near(ev, dist, back[k], back[k + 1])
    {
      var q := |path| - 2 - k;
      assert Near(ev, dist, path[q], path[q + 1]);
      NearSymmetric(ev, dist, path[q], path[q + 1]);
    }
  }

  /** Two chains meeting end to start form one chain. */
  lemma JoinChains(ev: seq<Event>, dist: Distance, p: seq<nat>, q: seq<nat>) returns (r: seq<nat>)
    requires IsChain(ev, dist, p) && IsChain(ev, dist, q) && p[|p| - 1] == q[0]
    ensures IsChain(ev, dist, r) && r[0] == p[0] && r[|r| - 1] == q[|q| - 1]
  {
    r := p + q[1..];
    forall k | 0 <= k < |r| - 1
      ensures Near(ev, dist, r[k], r[k + 1])
    {
      if k < |p| - 1 {
        assert r[k] == p[k] && r[k + 1] == p[k + 1];
      } else {
        var t := k - (|p| - 1);
        assert r[k] == q[t] && r[k + 1] == q[t + 1];
      }
    }
  }

  /** A chain that starts inside a closed cluster never leaves it. */
  lemma {:induction false} ChainStaysInCluster(ev: seq<Event>, dist: Distance, c: seq<nat>, path: seq<nat>)
    requires ClusterClosed(ev, dist, c)
    requires IsChain(ev, dist, path) && path[0] in c
    ensures forall x :: x in path ==> x in c
    decreases |path|
  {
    if |path| > 1 {
      var front := path[..|path| - 1];
      assert IsChain(ev, dist, front) by {
        forall k | 0 <= k < |front| - 1
          ensures Near(ev, dist, front[k], front[k + 1])
        {
          assert front[k] == path[k] && front[k + 1] == path[k + 1];
        }
      }
      ChainStaysInCluster(ev, dist, c, front);
      assert path[|path| - 2] in front;
      assert Near(ev, dist, path[|path| - 2], path[|path| - 1]);
      assert forall x :: x in path ==> x in front || x == path[|path| - 1];
    }
  }

  /**
    A reported cluster is exactly the connected component of any member:
    `b` is in `a`'s cluster iff a chain of neighbours links `a` to `b`.
   */
  lemma ClusterIsComponent(ev: seq<Event>, dist: Distance, c: seq<nat>, a: nat, b: nat)
    requires SymmetricDistance(dist)
    requires |c| >= 1 && ClusterClosed(ev, dist, c) && GrownFromSeed(ev, dist, c)
    requires a in c
    ensures Connected(ev, dist, a, b) <==> b in c
  {
    if b in c {
      var ia :| 0 <= ia < |c| && c[ia] == a;
      var ib :| 0 <= ib < |c| && c[ib] == b;
      var toA := ChainFromSeed(ev, dist, c, ia);
      var toB := ChainFromSeed(ev, dist, c, ib);
      var fromA := ReverseChain(ev, dist, toA);
      var path := JoinChains(ev, dist, fromA, toB);
      assert IsChain(ev, dist, path) && path[0] == a && path[|path| - 1] == b;
    }
    if Connected(ev, dist, a, b) {
      var path :| IsChain(ev, dist, path) && path[0] == a && path[|path| - 1] == b;
      ChainStaysInCluster(ev, dist, c, path);
      assert path[|path| - 1] in path;
    }
  }

  /** An event outside every cluster reaches nothing but itself. */
  lemma {:induction false} IsolatedReachesOnlyItself(ev: seq<Event>, dist: Distance, a: nat, path: seq<nat>)
    requires Isolated(ev, dist, a)
    requires IsChain(ev, dist, path) && path[0] == a
    ensures forall x :: x in path ==> x == a
    decreases |path|
  {
    if |path| > 1 {
      var front := path[..|path| - 1];
      assert IsChain(ev, dist, front) by {
        forall k | 0 <= k < |front| - 1
          ensures Near(ev, dist, front[k], front[k + 1])
        {
          assert front[k] == path[k] && front[k + 1] == path[k + 1];
        }
      }
      IsolatedReachesOnlyItself(ev, dist, a, front);
      assert path[|path| - 2] in front;
      assert Near(ev, dist, path[|path| - 2], path[|path| - 1]);
      assert forall x :: x in path ==> x in front || x == path[|path| - 1];
    }
  }

  /** Every member of a reported cluster has a neighbour other than itself. */
  lemma MemberIsNotIsolated(ev: seq<Event>, dist: Distance, c: seq<nat>, k: nat)
    requires SymmetricDistance(dist)
    requires |c| >= 2 && Distinct(c) && GrownFromSeed(ev, dist, c)
    requires k in c
    ensures !Isolated(ev, dist, k)
  {
    var m :| 0 <= m < |c| && c[m] == k;
    if m == 0 {
      assert FoundEarlier(ev, dist, c, 1);
      var p :| 0 <= p < 1 && Near(ev, dist, c[p], c[1]);
      assert c[0] != c[1];
    } else {
      assert FoundEarlier(ev, dist, c, m);
      var p :| 0 <= p < m && Near(ev, dist, c[p], c[m]);
      NearSymmetric(ev, dist, c[p], c[m]);
      assert c[p] != c[m];
    }
  }

  /** Four events on one meridian at latitudes 0, 1, -1 and 2. */
  function MeridianWindow(): (ev: seq<Event>)
    ensures |ev| == 4
  {
    [Event("a", 0.0, 30.0, 5.0, "ML", Some(1.0)), Event("b", 1.0, 30.0, 5.0, "ML", Some(1.0)),
     Event("c", -1.0, 30.0, 5.0, "ML", Some(5.0)), Event("d", 2.0, 30.0, 5.0, "ML", Some(5.0))]
  }

  /** 20 km per degree of latitude. */
  function MeridianDistance(lat1: real, lon1: real, lat2: real, lon2: real): real
  {
    if lat1 <= lat2 then 20.0 * (lat2 - lat1) else 20.0 * (lat1 - lat2)
  }

  /** Which meridian events lie within 20 km of each other. */
  lemma MeridianNeighbours()
    ensures Near(MeridianWindow(), MeridianDistance, 0, 1) && Near(MeridianWindow(), MeridianDistance, 0, 2)
    ensures Near(MeridianWindow(), MeridianDistance, 1, 3) && !Near(MeridianWindow(), MeridianDistance, 0, 3)
  {
    var ev := MeridianWindow();
    assert ev[0].lat == 0.0 && ev[1].lat == 1.0 && ev[2].lat == -1.0 && ev[3].lat == 2.0;
  }

  /**
    On the meridian window the contract fixes the order of the cluster grown
    from event 0: event 2 (found by the seed) comes before event 3 (found by
    event 1), so the depth-first order 0, 1, 3, 2 is ruled out.
   */
  lemma BreadthFirstFixesOrder()
    ensures BreadthFirst(MeridianWindow(), MeridianDistance, [0, 1, 2, 3])
    ensures !BreadthFirst(MeridianWindow(), MeridianDistance, [0, 1, 3, 2])
  {
    var ev := MeridianWindow();
    var dist: Distance := MeridianDistance;
    MeridianNeighbours();
    assert BreadthFirstParents(ev, dist, [0, 1, 2, 3], [0, 0, 0, 1]);
    var c: seq<nat> := [0, 1, 3, 2];
    forall parent: seq<nat>
      ensures !BreadthFirstParents(ev, dist, c, parent)
    {
      if |parent| == 4 {
        assert parent[2] < 2 && Near(ev, dist, c[parent[2]], c[2]) ==> parent[2] == 1;
        assert parent[3] > 0 ==> Near(ev, dist, c[0], c[3]);
      }
    }
  }
}
