/** Trust paths: the shortest directed path between two users with the
    ratings along it, the risk classification of such a path, the quality
    figures of a given path, and the average shortest-path length over a
    sample of user pairs. */
module Paths {
  import opened Seqs
  import opened Digraph
  import opened Traversal
  import opened TrustGraph

  datatype PathError = NoPath | NodeNotFound

  /** The result record of a shortest-path query. */
  datatype PathInfo = PathInfo(found: bool, path: seq<Node>, length: nat, totalTrust: int,
                               averageTrust: real, error: Option<PathError>)

  /** Every hop of the path is an edge of g. */
  predicate HopsIn(g: Graph, path: seq<Node>)
  {
    forall i :: 0 <= i < |path| - 1 ==> (path[i], path[i + 1]) in g.edges
  }

  /** The rating of every hop of the path, in order. */
  function PathRatings(g: Graph, path: seq<Node>): (r: seq<int>)
    requires HopsIn(g, path)
    ensures |r| == if |path| < 2 then 0 else |path| - 1
    ensures forall i :: 0 <= i < |r| ==> r[i] == g.edges[(path[i], path[i + 1])].rating
    decreases |path|
  {
    if |path| < 2 then []
    else
      var init := path[..|path| - 1];
      assert HopsIn(g, init) by {
        forall i | 0 <= i < |init| - 1 ensures (init[i], init[i + 1]) in g.edges {
          assert init[i] == path[i] && init[i + 1] == path[i + 1];
        }
      }
      PathRatings(g, init) + [g.edges[(path[|path| - 2], path[|path| - 1])].rating]
  }

  function Failed(e: PathError): PathInfo
  {
    PathInfo(false, [], 0, 0, 0.0, Some(e))
  }

  /** The average trust of a path: total over length, and 0 for a path of no hops. */
  function AverageTrust(total: int, length: nat): real
  {
    if length > 0 then total as real / length as real else 0.0
  }

  /** One step back: prepend a predecessor of the path's first node taken
      from the layer one hop closer to the source. */
  method StepBack(E: Arcs, source: Node, path: seq<Node>, k: nat) returns (path': seq<Node>)
    requires k > 0 && IsWalk(E, path) && path[0] in Layer(E, source, k)
    ensures IsWalk(E, path') && path'[0] in Layer(E, source, k - 1)
    ensures path' == [path'[0]] + path
  {
    var t := path[0];
    var _ := Predecessor(E, source, t, k);
    var u :| u in Layer(E, source, k - 1) && (u, t) in E;
    WalkCons(E, u, path);
    path' := [u] + path;
  }

  /** Walks back from `target` one layer at a time to rebuild a shortest path
      from the source. */
  method WalkBack(E: Arcs, source: Node, target: Node, d: nat) returns (path: seq<Node>)
    requires target in Layer(E, source, d)
    ensures IsWalk(E, path) && path[0] == source && path[|path| - 1] == target
    ensures |path| == d + 1
  {
    path := [target];
    var k: nat := d;
    while k > 0
      invariant k <= d
      invariant |path| == d - k + 1 && path[|path| - 1] == target
      invariant path[0] in Layer(E, source, k)
      invariant IsWalk(E, path)
      decreases k
    {
      path := StepBack(E, source, path, k);
      k := k - 1;
    }
  }

  /** `find_shortest_path`: a hop-count shortest path from source to target,
      with the sum of its hop ratings and their average. A missing endpoint
      and an unreachable target are reported as errors with an empty path. */
  method FindShortestPath(g: Graph, source: Node, target: Node) returns (info: PathInfo)
    requires Valid(g)
    ensures info.found <==> info.error == None
    ensures info.error == Some(NodeNotFound) <==> source !in g.nodes || target !in g.nodes
    ensures info.error == Some(NoPath) <==>
      source in g.nodes && target in g.nodes && !Reaches(EdgeSet(g), source, target)
    ensures !info.found ==> info.path == [] && info.length == 0 && info.totalTrust == 0 && info.averageTrust == 0.0
    ensures info.found ==>
      && IsWalk(EdgeSet(g), info.path) && info.path[0] == source && info.path[|info.path| - 1] == target
      && info.length == |info.path| - 1
      && (forall p :: IsWalk(EdgeSet(g), p) && p[0] == source && p[|p| - 1] == target ==> |p| >= |info.path|)
      && HopsIn(g, info.path)
      && info.totalTrust == SumI(PathRatings(g, info.path))
      && info.averageTrust == AverageTrust(info.totalTrust, info.length)
  {
    if source !in g.nodes || target !in g.nodes {
      return Failed(NodeNotFound);
    }
    var E, V := EdgeSet(g), NodeSet(g);
    var dist := ShortestPathLengths(E, source, |V|);
    ReachesIffBall(E, V, source, target);
    if target !in dist {
      return Failed(NoPath);
    }
    var path := WalkBack(E, source, target, dist[target]);
    forall p | IsWalk(E, p) && p[0] == source && p[|p| - 1] == target ensures |p| >= |path| {
      NoShorterWalk(E, source, target, dist[target], p);
    }
    var total := SumI(PathRatings(g, path));
    info := PathInfo(true, path, |path| - 1, total, AverageTrust(total, |path| - 1), None);
  }

  // ---------------------------------------------------------------------------
  // Risk

  datatype Risk = Low | Medium | Elevated | High

  function Severity(r: Risk): nat
  {
    match r
    case Low => 0
    case Medium => 1
    case Elevated => 2
    case High => 3
  }

  function LengthRisk(length: int): Risk
  {
    if length <= 2 then Low else if length <= 4 then Medium else Elevated
  }

  function TrustRisk(average: real): Risk
  {
    if average >= 8.0 then Low else if average >= 5.0 then Medium else Elevated
  }

  /** The levels in the order the classifier scans them. */
  const Levels: seq<Risk> := [Low, Medium, Elevated, High]

  /** The first level of `levels` with the given severity, or Medium when none has it. */
  function LevelOfSeverity(levels: seq<Risk>, score: nat): Risk
    decreases |levels|
  {
    if levels == [] then Medium
    else if Severity(levels[0]) == score then levels[0]
    else LevelOfSeverity(levels[1..], score)
  }

  /** `assess_path_risk`: HIGH when there is no path, otherwise the worse of
      the length risk and the trust risk. */
  function AssessPathRisk(info: PathInfo): (r: Risk)
    ensures r == High <==> !info.found
    ensures info.found ==>
      && Severity(LengthRisk(info.length)) <= Severity(r)
      && Severity(TrustRisk(info.averageTrust)) <= Severity(r)
      && (r == LengthRisk(info.length) || r == TrustRisk(info.averageTrust))
  {
    if !info.found then High
    else
      var a, b := Severity(LengthRisk(info.length)), Severity(TrustRisk(info.averageTrust));
      LevelOfSeverity(Levels, if a >= b then a else b)
  }

  /** A longer path at the same average trust is never less risky. */
  lemma RiskMonotoneInLength(info: PathInfo, longer: nat)
    requires info.found && info.length <= longer
    ensures Severity(AssessPathRisk(info)) <= Severity(AssessPathRisk(info.(length := longer)))
  {
  }

  /** A higher average trust at the same length is never more risky. */
  lemma RiskAntitoneInTrust(info: PathInfo, higher: real)
    requires info.found && info.averageTrust <= higher
    ensures Severity(AssessPathRisk(info.(averageTrust := higher))) <= Severity(AssessPathRisk(info))
  {
  }

  // ---------------------------------------------------------------------------
  // Path quality

  datatype Quality =
    | Invalid
    | Quality(length: nat, minRating: int, maxRating: int, avgRating: real, allPositive: bool, weakestLink: int)
      /** A hop that is not an edge: the lookup fails at index `at`. */
    | KeyError(at: nat)

  /** The quality figures of a nonempty list of hop ratings. */
  function QualityOf(ratings: seq<int>): (q: Quality)
    requires ratings != []
    ensures q.Quality? && q.length == |ratings| && q.weakestLink == q.minRating
    ensures q.minRating in ratings && q.maxRating in ratings
    ensures forall r :: r in ratings ==> q.minRating <= r <= q.maxRating
    ensures q.allPositive <==> forall r :: r in ratings ==> r > 0
  {
    Quality(|ratings|, MinI(ratings), MaxI(ratings), Mean(ratings),
            forall r :: r in ratings ==> r > 0, MinI(ratings))
  }

  /** The average rating lies between the weakest and the strongest hop. */
  lemma QualityAverageInRange(ratings: seq<int>)
    requires ratings != []
    ensures QualityOf(ratings).minRating as real <= QualityOf(ratings).avgRating <= QualityOf(ratings).maxRating as real
  {
    MeanWithinRange(ratings);
  }

  /** Ratings collected hop by hop are the path's ratings. */
  lemma CollectedRatings(g: Graph, path: seq<Node>, ratings: seq<int>)
    requires |path| >= 2 && |ratings| == |path| - 1
    requires forall j :: 0 <= j < |path| - 1 ==> (path[j], path[j + 1]) in g.edges
    requires forall j :: 0 <= j < |ratings| ==> ratings[j] == g.edges[(path[j], path[j + 1])].rating
    ensures HopsIn(g, path) && ratings == PathRatings(g, path)
  {
    var r := PathRatings(g, path);
    forall j | 0 <= j < |r| ensures r[j] == ratings[j] {
      assert r[j] == g.edges[(path[j], path[j + 1])].rating;
    }
  }

  /** `analyze_path_quality`: the ratings of a given path's hops, collected
      in order, summarised by `QualityOf`. A path of fewer than two nodes is
      invalid; the first hop that is not an edge fails the lookup. */
  method AnalyzePathQuality(g: Graph, path: seq<Node>) returns (q: Quality)
    ensures |path| < 2 <==> q == Invalid
    ensures q.KeyError? ==>
      q.at < |path| - 1 && (path[q.at], path[q.at + 1]) !in g.edges &&
      forall i :: 0 <= i < q.at ==> (path[i], path[i + 1]) in g.edges
    ensures q.Quality? <==> |path| >= 2 && HopsIn(g, path)
    ensures q.Quality? ==> q.length == |path| - 1 && q == QualityOf(PathRatings(g, path))
  {
    if |path| < 2 {
      return Invalid;
    }
    var ratings: seq<int> := [];
    for i := 0 to |path| - 1
      invariant forall j :: 0 <= j < i ==> (path[j], path[j + 1]) in g.edges
      invariant |ratings| == i
      invariant forall j :: 0 <= j < i ==> ratings[j] == g.edges[(path[j], path[j + 1])].rating
    {
      if (path[i], path[i + 1]) !in g.edges {
        return KeyError(i);
      }
      ratings := ratings + [g.edges[(path[i], path[i + 1])].rating];
    }
    CollectedRatings(g, path, ratings);
    q := QualityOf(ratings);
  }

  /** A valid quality report is all-positive exactly when every hop of the path is rated above zero. */
  lemma QualityAllPositive(g: Graph, path: seq<Node>)
    requires |path| >= 2 && HopsIn(g, path)
    ensures QualityOf(PathRatings(g, path)).allPositive <==>
      forall i :: 0 <= i < |path| - 1 ==> g.edges[(path[i], path[i + 1])].rating > 0
  {
    var r := PathRatings(g, path);
    if forall i :: 0 <= i < |path| - 1 ==> g.edges[(path[i], path[i + 1])].rating > 0 {
      forall x | x in r ensures x > 0 {
        var i :| 0 <= i < |r| && r[i] == x;
        assert r[i] == g.edges[(path[i], path[i + 1])].rating;
      }
    }
    if forall x :: x in r ==> x > 0 {
      forall i | 0 <= i < |path| - 1 ensures g.edges[(path[i], path[i + 1])].rating > 0 {
        assert r[i] in r;
      }
    }
  }

  // ---------------------------------------------------------------------------
  // Average path length over a sample

  /** The hop distances of the sampled pairs that count: distinct endpoints
      with a path between them. */
  function FoundLengths(g: Graph, pairs: seq<(Node, Node)>): seq<int>
    decreases |pairs|
  {
    if pairs == [] then []
    else
      var rest := FoundLengths(g, pairs[..|pairs| - 1]);
      var (s, t) := pairs[|pairs| - 1];
      if s != t && t in Ball(EdgeSet(g), s, |NodeSet(g)|)
      then rest + [Distance(EdgeSet(g), s, t, |NodeSet(g)|)]
      else rest
  }

  /** Every counted distance is at least one hop and less than the number of nodes. */
  lemma {:induction false} FoundLengthsBounded(g: Graph, pairs: seq<(Node, Node)>)
    requires Valid(g)
    requires forall k :: 0 <= k < |pairs| ==> pairs[k].0 in g.nodes
    ensures forall d :: d in FoundLengths(g, pairs) ==> 1 <= d < |NodeSet(g)|
    decreases |pairs|
  {
    if pairs != [] {
      var init := pairs[..|pairs| - 1];
      FoundLengthsBounded(g, init);
      var (s, t) := pairs[|pairs| - 1];
      var E, V := EdgeSet(g), NodeSet(g);
      if s != t && t in Ball(E, s, |V|) {
        var d := Distance(E, s, t, |V|);
        LayerBound(E, V, s, t, d);
      }
    }
  }

  /** `compute_average_path_length` with the random pairs passed in: the mean
      hop distance over the sampled pairs of distinct, connected users, 0 when
      there are none or the graph has fewer than two nodes. */
  method ComputeAveragePathLength(g: Graph, pairs: seq<(Node, Node)>) returns (avg: real)
    requires Valid(g)
    requires forall k :: 0 <= k < |pairs| ==> pairs[k].0 in g.nodes && pairs[k].1 in g.nodes
    ensures |g.nodes| < 2 ==> avg == 0.0
    ensures |g.nodes| >= 2 ==> avg == Mean(FoundLengths(g, pairs))
  {
    if |g.nodes| < 2 {
      return 0.0;
    }
    var E, V := EdgeSet(g), NodeSet(g);
    var found: seq<int> := [];
    for k := 0 to |pairs|
      invariant found == FoundLengths(g, pairs[..k])
    {
      assert pairs[..k + 1][..k] == pairs[..k];
      var (s, t) := pairs[k];
      if s != t {
        var dist := ShortestPathLengths(E, s, |V|);
        if t in dist {
          LayerUnique(E, s, t, dist[t], Distance(E, s, t, |V|));
          found := found + [dist[t]];
        }
      }
    }
    assert pairs[..|pairs|] == pairs;
    avg := if found != [] then Mean(found) else 0.0;
  }

  /** The average lies between one hop and one less than the number of nodes. */
  lemma AveragePathLengthBounded(g: Graph, pairs: seq<(Node, Node)>)
    requires Valid(g)
    requires forall k :: 0 <= k < |pairs| ==> pairs[k].0 in g.nodes && pairs[k].1 in g.nodes
    requires FoundLengths(g, pairs) != []
    ensures 1.0 <= Mean(FoundLengths(g, pairs)) <= (|NodeSet(g)| - 1) as real
  {
    FoundLengthsBounded(g, pairs);
    MeanBetween(FoundLengths(g, pairs), 1, |NodeSet(g)| - 1);
  }
}
