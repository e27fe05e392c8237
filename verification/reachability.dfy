/** Reachability: the nodes at each hop distance from a source, the
    per-hop and cumulative reach of a user ("trust radius"), the reach of a
    sample of users, the nodes a source cannot reach within a bound, and the
    coverage a set of anchor users achieves together. */
module Reachability {
  import opened Seqs
  import opened Digraph
  import opened Traversal
  import opened TrustGraph
  import opened Centrality

  // ---------------------------------------------------------------------------
  // Distance buckets

  /** A search labels exactly the nodes of layer d with d, for every d up to the cutoff. */
  lemma LabelIsLayer(E: Arcs, s: Node, cutoff: nat, dist: map<Node, nat>, n: Node)
    requires dist.Keys == Ball(E, s, cutoff)
    requires forall m {:trigger dist[m]} :: m in dist ==> m in Layer(E, s, dist[m])
    ensures n in dist ==> dist[n] <= cutoff
    ensures forall d: nat :: d <= cutoff ==> (n in dist && dist[n] == d <==> n in Layer(E, s, d))
  {
    if n in dist {
      var d := BallHasLayer(E, s, n, cutoff);
      LayerUnique(E, s, n, d, dist[n]);
    }
    forall d: nat | d <= cutoff && n in Layer(E, s, d) ensures n in dist && dist[n] == d {
      LayerInBall(E, s, d);
      BallMono(E, s, d, cutoff);
      LayerUnique(E, s, n, d, dist[n]);
    }
  }

  /** Files every labelled node except the source into the list of its
      label, one node at a time in whatever order the map yields them. */
  method Bucket(dist: map<Node, nat>, source: Node, maxDepth: nat) returns (depths: seq<seq<Node>>)
    requires forall n :: n in dist ==> dist[n] <= maxDepth
    ensures |depths| == maxDepth + 1
    ensures forall d :: 0 <= d <= maxDepth ==> Distinct(depths[d])
    ensures forall d, n :: 0 <= d <= maxDepth ==>
      (n in depths[d] <==> n in dist && dist[n] == d && n != source)
  {
    depths := seq(maxDepth + 1, _ => []);
    var todo := dist.Keys;
    while todo != {}
      invariant todo <= dist.Keys
      invariant |depths| == maxDepth + 1
      invariant forall d :: 0 <= d <= maxDepth ==> Distinct(depths[d])
      invariant forall d, n :: 0 <= d <= maxDepth ==>
        (n in depths[d] <==> n in dist && n !in todo && dist[n] == d && n != source)
      decreases |todo|
    {
      ghost var some := Pick(todo);
      var n :| n in todo;
      if n != source {
        var d := dist[n];
        depths := depths[d := depths[d] + [n]];
      }
      todo := todo - {n};
    }
  }

  /** `bfs_reachability`: for a source in the graph, one list per depth
      0..maxDepth holding the nodes at exactly that directed distance, the
      source itself left out; for a source not in the graph, nothing. */
  method BfsReachability(g: Graph, source: Node, maxDepth: nat) returns (depths: seq<seq<Node>>)
    ensures source !in g.nodes ==> depths == []
    ensures source in g.nodes ==> |depths| == maxDepth + 1
    ensures source in g.nodes ==> forall d :: 0 <= d <= maxDepth ==> Distinct(depths[d])
    ensures source in g.nodes ==> forall d, n :: 0 <= d <= maxDepth ==>
      (n in depths[d] <==> n in Layer(EdgeSet(g), source, d) && n != source)
  {
    if source !in g.nodes {
      return [];
    }
    var E := EdgeSet(g);
    var dist := ShortestPathLengths(E, source, maxDepth);
    forall n | n in dist ensures dist[n] <= maxDepth {
      LabelIsLayer(E, source, maxDepth, dist, n);
    }
    depths := Bucket(dist, source, maxDepth);
    forall d, n | 0 <= d <= maxDepth
      ensures n in depths[d] <==> n in Layer(E, source, d) && n != source
    {
      LabelIsLayer(E, source, maxDepth, dist, n);
    }
  }

  /** No bucket holds the source, so bucket 0 is empty. */
  lemma SourceNotInLayer(E: Arcs, s: Node, d: nat)
    requires d > 0
    ensures s !in Layer(E, s, d)
  {
    SourceInBall(E, s, d - 1);
  }

  /** The buckets are pairwise disjoint and together hold every node within
      maxDepth hops except the source. */
  lemma BucketsPartitionBall(E: Arcs, s: Node, maxDepth: nat, n: Node)
    ensures n in Ball(E, s, maxDepth) && n != s <==>
      exists d :: 1 <= d <= maxDepth && n in Layer(E, s, d)
    ensures forall d1, d2 :: 0 <= d1 < d2 && n in Layer(E, s, d1) ==> n !in Layer(E, s, d2)
  {
    if n in Ball(E, s, maxDepth) && n != s {
      var d := BallHasLayer(E, s, n, maxDepth);
    }
    if exists d :: 1 <= d <= maxDepth && n in Layer(E, s, d) {
      var d :| 1 <= d <= maxDepth && n in Layer(E, s, d);
      SourceNotInLayer(E, s, d);
      LayerInBall(E, s, d);
      BallMono(E, s, d, maxDepth);
    }
    forall d1, d2 | 0 <= d1 < d2 && n in Layer(E, s, d1) ensures n !in Layer(E, s, d2) {
      if n in Layer(E, s, d2) {
        LayerUnique(E, s, n, d1, d2);
      }
    }
  }

  /** A bucket of depth d > 0 has as many nodes as layer d. */
  lemma BucketSize(E: Arcs, s: Node, d: nat, bucket: seq<Node>)
    requires d > 0 && Distinct(bucket)
    requires forall n :: n in bucket <==> n in Layer(E, s, d) && n != s
    ensures |bucket| == |Layer(E, s, d)|
  {
    SourceNotInLayer(E, s, d);
    DistinctCard(bucket);
    assert (set x | x in bucket) == Layer(E, s, d);
  }

  // ---------------------------------------------------------------------------
  // Trust radius

  /** The result of `compute_trust_radius`: entry h - 1 of each sequence
      belongs to hop h. */
  datatype Radius = Radius(user: Node, reachableAtHop: seq<int>, cumulative: seq<int>, total: int)

  /** How many nodes lie at each hop 1..maxHops from the user; all zero for a
      user not in the graph. */
  function HopCounts(g: Graph, user: Node, maxHops: nat): (c: seq<int>)
    ensures |c| == maxHops
  {
    seq(maxHops, i requires 0 <= i < maxHops =>
      if user in g.nodes then |Layer(EdgeSet(g), user, i + 1)| else 0)
  }

  /** Running totals: entry i is the sum of the first i + 1 counts. */
  function RunningTotals(c: seq<int>): (r: seq<int>)
    ensures |r| == |c|
  {
    seq(|c|, i requires 0 <= i < |c| => SumI(c[..i + 1]))
  }

  function TrustRadius(g: Graph, user: Node, maxHops: nat): Radius
  {
    var c := HopCounts(g, user, maxHops);
    Radius(user, c, RunningTotals(c), SumI(c))
  }

  lemma RunningTotalsSnoc(c: seq<int>, x: int)
    ensures RunningTotals(c + [x]) == RunningTotals(c) + [SumI(c + [x])]
  {
    forall i | 0 <= i < |c| ensures RunningTotals(c + [x])[i] == RunningTotals(c)[i] {
      assert (c + [x])[..i + 1] == c[..i + 1];
    }
    assert (c + [x])[..|c| + 1] == c + [x];
  }

  /** `compute_trust_radius`: the bucket sizes of hops 1..maxHops, their
      running total and their sum. */
  method ComputeTrustRadius(g: Graph, user: Node, maxHops: nat) returns (r: Radius)
    ensures r == TrustRadius(g, user, maxHops)
  {
    var depths := BfsReachability(g, user, maxHops);
    ghost var counts := HopCounts(g, user, maxHops);
    var at: seq<int> := [];
    var cumulative: seq<int> := [];
    var total := 0;
    for hop := 1 to maxHops + 1
      invariant at == counts[..hop - 1]
      invariant cumulative == RunningTotals(at)
      invariant total == SumI(at)
    {
      var c := if hop < |depths| then |depths[hop]| else 0;
      if user in g.nodes {
        BucketSize(EdgeSet(g), user, hop, depths[hop]);
      }
      assert c == counts[hop - 1];
      assert counts[..hop] == at + [c];
      RunningTotalsSnoc(at, c);
      at := at + [c];
      total := total + c;
      cumulative := cumulative + [total];
    }
    assert at == counts;
    r := Radius(user, at, cumulative, total);
  }

  /** The counts add up, hop by hop, to the nodes within reach. */
  lemma {:induction false} HopCountsSum(g: Graph, user: Node, h: nat)
    requires user in g.nodes
    ensures SumI(HopCounts(g, user, h)) == |Ball(EdgeSet(g), user, h)| - 1
    decreases h
  {
    if h > 0 {
      HopCountsSum(g, user, h - 1);
      assert HopCounts(g, user, h)[..h - 1] == HopCounts(g, user, h - 1);
      BallCard(EdgeSet(g), user, h);
    }
  }

  /** A longer prefix of non-negative counts has a sum at least as large. */
  lemma {:induction false} PrefixSumMonotone(c: seq<int>, i: nat, j: nat)
    requires i <= j <= |c|
    requires forall k :: 0 <= k < |c| ==> c[k] >= 0
    ensures SumI(c[..i]) <= SumI(c[..j])
    decreases j - i
  {
    if i < j {
      PrefixSumMonotone(c, i, j - 1);
      assert c[..j][..j - 1] == c[..j - 1];
    }
  }

  /** Two running totals of non-negative counts are in order. */
  lemma TotalsOrdered(c: seq<int>, i: nat, j: nat)
    requires i <= j < |c|
    requires forall k :: 0 <= k < |c| ==> c[k] >= 0
    ensures RunningTotals(c)[i] <= RunningTotals(c)[j]
  {
    PrefixSumMonotone(c, i + 1, j + 1);
  }

  /** Running totals of non-negative counts never decrease, and the last is the sum. */
  lemma RunningTotalsMonotone(c: seq<int>)
    requires forall i :: 0 <= i < |c| ==> c[i] >= 0
    ensures forall i, j :: 0 <= i <= j < |c| ==> RunningTotals(c)[i] <= RunningTotals(c)[j]
    ensures c != [] ==> RunningTotals(c)[|c| - 1] == SumI(c)
  {
    forall i, j | 0 <= i <= j < |c| ensures RunningTotals(c)[i] <= RunningTotals(c)[j] {
      TotalsOrdered(c, i, j);
    }
    if c != [] {
      assert c[..|c|] == c;
    }
  }

  /** The running totals never decrease and end at the total, which counts
      every node within maxHops hops other than the user; a user not in the
      graph reaches nobody. */
  lemma TrustRadiusProperties(g: Graph, user: Node, maxHops: nat)
    ensures var r := TrustRadius(g, user, maxHops);
      && (forall i, j :: 0 <= i <= j < maxHops ==> r.cumulative[i] <= r.cumulative[j])
      && (maxHops > 0 ==> r.cumulative[maxHops - 1] == r.total)
      && (user in g.nodes ==> r.total == |Ball(EdgeSet(g), user, maxHops)| - 1)
      && (user !in g.nodes ==> r.total == 0 && forall i :: 0 <= i < maxHops ==> r.reachableAtHop[i] == 0 && r.cumulative[i] == 0)
  {
    var c := HopCounts(g, user, maxHops);
    RunningTotalsMonotone(c);
    if user in g.nodes {
      HopCountsSum(g, user, maxHops);
    } else {
      forall i | 0 <= i < maxHops ensures RunningTotals(c)[i] == 0 {
        SumZero(c[..i + 1]);
      }
      SumZero(c);
    }
  }

  // ---------------------------------------------------------------------------
  // Network reach

  /** Every node of the graph with its degree, in node order: `dict(G.degree())`. */
  function DegreeScores(g: Graph): (d: seq<Entry>)
    ensures |d| == |g.nodes| && forall i :: 0 <= i < |d| ==> d[i] == (g.nodes[i], Degree(g, g.nodes[i]) as real)
  {
    seq(|g.nodes|, i requires 0 <= i < |g.nodes| => (g.nodes[i], Degree(g, g.nodes[i]) as real))
  }

  function Keys(d: seq<Entry>): (r: seq<Node>)
    ensures |r| == |d| && forall i :: 0 <= i < |d| ==> r[i] == d[i].0
  {
    seq(|d|, i requires 0 <= i < |d| => d[i].0)
  }

  /** The default sample: the 20 nodes of highest degree, ties in node order. */
  function DefaultSample(g: Graph): seq<Node>
  {
    Keys(GetTopNodes(DegreeScores(g), 20))
  }

  /** The default sample holds at most 20 nodes of the graph ... */
  lemma DefaultSampleNodes(g: Graph)
    ensures |DefaultSample(g)| == Min(20, |g.nodes|)
    ensures forall u :: u in DefaultSample(g) ==> u in g.nodes
  {
    var d := DegreeScores(g);
    var top := GetTopNodes(d, 20);
    var s := DefaultSample(g);
    forall u | u in s ensures u in g.nodes {
      var i :| 0 <= i < |s| && s[i] == u;
      assert top[i] in d;
    }
  }

  /** ... and no node left out has a higher degree than one taken. */
  lemma DefaultSampleTop(g: Graph)
    ensures forall u, v :: u in g.nodes && u !in DefaultSample(g) && v in DefaultSample(g) ==>
      Degree(g, u) <= Degree(g, v)
  {
    var d := DegreeScores(g);
    var top := GetTopNodes(d, 20);
    var s := DefaultSample(g);
    TopNodesCorrect(d, 20);
    forall u, v | u in g.nodes && u !in s && v in s ensures Degree(g, u) <= Degree(g, v) {
      var i :| 0 <= i < |g.nodes| && g.nodes[i] == u;
      var j :| 0 <= j < |s| && s[j] == v;
      assert d[i] == (u, Degree(g, u) as real);
      assert d[i] !in top;
      assert d[i].1 <= top[j].1;
      assert top[j] in d;
      var m :| 0 <= m < |d| && d[m] == top[j];
      assert top[j] == (v, Degree(g, v) as real);
    }
  }

  /** The trust-radius row of each user, in order. */
  function Radii(g: Graph, users: seq<Node>, maxHops: nat): (r: seq<Radius>)
    ensures |r| == |users| && forall i :: 0 <= i < |r| ==> r[i] == TrustRadius(g, users[i], maxHops)
  {
    seq(|users|, i requires 0 <= i < |users| => TrustRadius(g, users[i], maxHops))
  }

  lemma RadiiSnoc(g: Graph, users: seq<Node>, user: Node, maxHops: nat)
    ensures Radii(g, users + [user], maxHops) == Radii(g, users, maxHops) + [TrustRadius(g, user, maxHops)]
  {
  }

  /** One trust-radius row per user of `users` present in the graph, in order. */
  method ReachRows(g: Graph, users: seq<Node>, maxHops: nat) returns (rows: seq<Radius>)
    ensures var present := Select(users, NodeSet(g));
      |rows| == |present| && forall i :: 0 <= i < |rows| ==> rows[i] == TrustRadius(g, present[i], maxHops)
  {
    rows := [];
    ghost var taken: seq<Node> := [];
    for k := 0 to |users|
      invariant taken == Select(users[..k], NodeSet(g))
      invariant rows == Radii(g, taken, maxHops)
    {
      var user := users[k];
      SelectSnoc(users, k, NodeSet(g));
      if user in g.nodes {
        var radius := ComputeTrustRadius(g, user, maxHops);
        RadiiSnoc(g, taken, user, maxHops);
        rows := rows + [radius];
        taken := taken + [user];
      }
    }
    assert users[..|users|] == users;
  }

  /** `analyze_network_reach`: one trust-radius row per sampled user present
      in the graph, in sample order; without a sample, the default one. */
  method AnalyzeNetworkReach(g: Graph, sampleUsers: Option<seq<Node>>, maxHops: nat) returns (rows: seq<Radius>)
    ensures var users := if sampleUsers.Some? then sampleUsers.value else DefaultSample(g);
      var present := Select(users, NodeSet(g));
      |rows| == |present| && forall i :: 0 <= i < |rows| ==> rows[i] == TrustRadius(g, present[i], maxHops)
  {
    var users := if sampleUsers.Some? then sampleUsers.value else DefaultSample(g);
    rows := ReachRows(g, users, maxHops);
  }

  // ---------------------------------------------------------------------------
  // Unreachable nodes

  /** `get_unreachable_nodes`: the nodes with no walk of at most maxDepth
      edges from the source; every node when the source is not in the graph. */
  method GetUnreachableNodes(g: Graph, source: Node, maxDepth: nat) returns (r: set<Node>)
    ensures source !in g.nodes ==> r == NodeSet(g)
    ensures source in g.nodes ==> forall n :: n in r <==> n in NodeSet(g) && !WalkWithin(EdgeSet(g), source, n, maxDepth)
    ensures source !in r
  {
    if source !in g.nodes {
      return NodeSet(g);
    }
    var dist := ShortestPathLengths(EdgeSet(g), source, maxDepth);
    r := NodeSet(g) - dist.Keys;
    SourceInBall(EdgeSet(g), source, maxDepth);
    forall n ensures n in r <==> n in NodeSet(g) && !WalkWithin(EdgeSet(g), source, n, maxDepth) {
      BallIsWalkWithin(EdgeSet(g), source, n, maxDepth);
    }
  }

  // ---------------------------------------------------------------------------
  // Trust propagation from anchors

  /** The nodes that some anchor present in the graph reaches in 1..maxHops hops. */
  function CoveredBy(g: Graph, anchors: seq<Node>, maxHops: nat): set<Node>
    decreases |anchors|
  {
    if anchors == [] then {}
    else
      var a := anchors[|anchors| - 1];
      CoveredBy(g, anchors[..|anchors| - 1], maxHops) +
        (if a in g.nodes then Ball(EdgeSet(g), a, maxHops) - {a} else {})
  }

  /** The nodes that some anchor present in the graph reaches in exactly h hops. */
  function HopCoveredBy(g: Graph, anchors: seq<Node>, h: nat): set<Node>
    decreases |anchors|
  {
    if anchors == [] then {}
    else
      var a := anchors[|anchors| - 1];
      HopCoveredBy(g, anchors[..|anchors| - 1], h) +
        (if a in g.nodes then Layer(EdgeSet(g), a, h) - {a} else {})
  }

  /** The result of `analyze_trust_propagation`; entry h - 1 of `hopCoverage` belongs to hop h. */
  datatype Propagation = Propagation(anchorsAnalyzed: nat, totalCoverage: nat, coveragePct: real,
                                     hopCoverage: seq<nat>, uncovered: int)

  /** Adds the buckets 1..maxHops of one anchor to the covered set and to the per-hop sets. */
  method AddAnchor(g: Graph, a: Node, maxHops: nat, covered: set<Node>, hops: seq<set<Node>>)
    returns (covered': set<Node>, hops': seq<set<Node>>)
    requires a in g.nodes && |hops| == maxHops
    ensures covered' == covered + (Ball(EdgeSet(g), a, maxHops) - {a})
    ensures |hops'| == maxHops
    ensures forall h :: 1 <= h <= maxHops ==> hops'[h - 1] == hops[h - 1] + (Layer(EdgeSet(g), a, h) - {a})
  {
    var E := EdgeSet(g);
    var depths := BfsReachability(g, a, maxHops);
    covered', hops' := covered, hops;
    for hop := 1 to maxHops + 1
      invariant covered' == covered + (Ball(E, a, hop - 1) - {a})
      invariant |hops'| == maxHops
      invariant forall h :: 1 <= h < hop ==> hops'[h - 1] == hops[h - 1] + (Layer(E, a, h) - {a})
      invariant forall i :: hop - 1 <= i < maxHops ==> hops'[i] == hops[i]
    {
      var bucket := Elems(depths[hop]);
      assert bucket == Layer(E, a, hop) - {a} by {
        forall x ensures x in bucket <==> x in Layer(E, a, hop) - {a} {
          assert x in bucket <==> x in depths[hop];
        }
      }
      assert covered' + bucket == covered + (Ball(E, a, hop) - {a}) by {
        BallMono(E, a, hop - 1, hop);
        assert Ball(E, a, hop) == Ball(E, a, hop - 1) + Layer(E, a, hop);
      }
      hops' := hops'[hop - 1 := hops'[hop - 1] + bucket];
      covered' := covered' + bucket;
    }
  }

  /** The loop over the anchors: everything each present anchor reaches, overall and per hop. */
  method CoverFromAnchors(g: Graph, anchors: seq<Node>, maxHops: nat) returns (covered: set<Node>, hops: seq<set<Node>>)
    ensures covered == CoveredBy(g, anchors, maxHops)
    ensures |hops| == maxHops
    ensures forall h :: 1 <= h <= maxHops ==> hops[h - 1] == HopCoveredBy(g, anchors, h)
  {
    covered := {};
    hops := seq(maxHops, _ => {});
    for k := 0 to |anchors|
      invariant covered == CoveredBy(g, anchors[..k], maxHops)
      invariant |hops| == maxHops
      invariant forall h :: 1 <= h <= maxHops ==> hops[h - 1] == HopCoveredBy(g, anchors[..k], h)
    {
      assert anchors[..k + 1][..k] == anchors[..k];
      var a := anchors[k];
      if a in g.nodes {
        covered, hops := AddAnchor(g, a, maxHops, covered, hops);
      }
    }
    assert anchors[..|anchors|] == anchors;
  }

  /** `analyze_trust_propagation`: the union of what every anchor present in
      the graph reaches within maxHops hops, overall and per hop. */
  method AnalyzeTrustPropagation(g: Graph, anchors: seq<Node>, maxHops: nat) returns (p: Propagation)
    requires Valid(g)
    ensures p.anchorsAnalyzed == |anchors|
    ensures p.totalCoverage == |CoveredBy(g, anchors, maxHops)|
    ensures |p.hopCoverage| == maxHops
    ensures forall h :: 1 <= h <= maxHops ==> p.hopCoverage[h - 1] == |HopCoveredBy(g, anchors, h)|
    ensures p.totalCoverage + p.uncovered == |g.nodes| && p.uncovered >= 0
    ensures |g.nodes| == 0 ==> p.coveragePct == 0.0
    ensures |g.nodes| > 0 ==> p.coveragePct == p.totalCoverage as real / |g.nodes| as real * 100.0
    ensures 0.0 <= p.coveragePct <= 100.0
  {
    var covered, hops := CoverFromAnchors(g, anchors, maxHops);
    CoveredWithinNodes(g, anchors, maxHops);
    var n := |g.nodes|;
    if n > 0 {
      RatioBetween(0, |covered|, 1, n);
    }
    var pct := if n > 0 then |covered| as real / n as real * 100.0 else 0.0;
    p := Propagation(|anchors|, |covered|, pct, seq(maxHops, i requires 0 <= i < maxHops => |hops[i]|), n - |covered|);
  }

  /** Everything covered is a node of the graph, so at most all of it is covered. */
  lemma {:induction false} CoveredWithinNodes(g: Graph, anchors: seq<Node>, maxHops: nat)
    requires Valid(g)
    ensures CoveredBy(g, anchors, maxHops) <= NodeSet(g)
    ensures |CoveredBy(g, anchors, maxHops)| <= |g.nodes|
    decreases |anchors|
  {
    if anchors != [] {
      CoveredWithinNodes(g, anchors[..|anchors| - 1], maxHops);
      var a := anchors[|anchors| - 1];
      if a in g.nodes {
        ValidInside(g);
        BallInside(EdgeSet(g), NodeSet(g), a, maxHops);
      }
    }
    SubsetCard(CoveredBy(g, anchors, maxHops), NodeSet(g));
    DistinctCard(g.nodes);
  }

  lemma {:induction false} HopIsCovered(g: Graph, anchors: seq<Node>, maxHops: nat, h: nat, n: Node)
    requires 1 <= h <= maxHops && n in HopCoveredBy(g, anchors, h)
    ensures n in CoveredBy(g, anchors, maxHops)
    decreases |anchors|
  {
    var init := anchors[..|anchors| - 1];
    var a := anchors[|anchors| - 1];
    if n in HopCoveredBy(g, init, h) {
      HopIsCovered(g, init, maxHops, h, n);
    } else {
      LayerInBall(EdgeSet(g), a, h);
      BallMono(EdgeSet(g), a, h, maxHops);
    }
  }

  lemma {:induction false} CoveredHasHop(g: Graph, anchors: seq<Node>, maxHops: nat, n: Node) returns (h: nat)
    requires n in CoveredBy(g, anchors, maxHops)
    ensures 1 <= h <= maxHops && n in HopCoveredBy(g, anchors, h)
    decreases |anchors|
  {
    var init := anchors[..|anchors| - 1];
    var a := anchors[|anchors| - 1];
    if n in CoveredBy(g, init, maxHops) {
      h := CoveredHasHop(g, init, maxHops, n);
    } else {
      var d := BallHasLayer(EdgeSet(g), a, n, maxHops);
      h := d;
    }
  }

  /** The covered set is exactly the union of the per-hop sets. */
  lemma CoveredIsUnionOfHops(g: Graph, anchors: seq<Node>, maxHops: nat, n: Node)
    ensures n in CoveredBy(g, anchors, maxHops) <==>
      exists h :: 1 <= h <= maxHops && n in HopCoveredBy(g, anchors, h)
  {
    if n in CoveredBy(g, anchors, maxHops) {
      var h := CoveredHasHop(g, anchors, maxHops, n);
    }
    if exists h :: 1 <= h <= maxHops && n in HopCoveredBy(g, anchors, h) {
      var h :| 1 <= h <= maxHops && n in HopCoveredBy(g, anchors, h);
      HopIsCovered(g, anchors, maxHops, h, n);
    }
  }
}
