/** Connected components of the trust graph: the weakly and strongly connected
    components, their size statistics and histogram, the health verdict drawn
    from the share of the largest component, and the articulation points of
    the undirected projection. */
module Components {
  import opened Seqs
  import opened Digraph
  import opened Classes
  import opened Traversal
  import opened TrustGraph

  // ---------------------------------------------------------------------------
  // The components

  /** The weakly connected components, in the order the graph library lists them. */
  function Wcc(g: Graph): seq<set<Node>>
  {
    ClassesUpTo(Symmetric(EdgeSet(g)), NodeSet(g), g.nodes)
  }

  /** The strongly connected components, as sets, one per class. */
  function Scc(g: Graph): seq<set<Node>>
  {
    ClassesUpTo(EdgeSet(g), NodeSet(g), g.nodes)
  }

  /** The weakly connected components partition the nodes: nonempty, disjoint,
      covering, and their sizes add up to the node count. */
  lemma WccPartition(g: Graph)
    requires Valid(g)
    ensures Partition(Symmetric(EdgeSet(g)), NodeSet(g), Wcc(g))
    ensures Covered(Wcc(g)) == NodeSet(g)
    ensures SumI(Sizes(Wcc(g))) == |g.nodes|
    ensures |Wcc(g)| == |ClassSet(Symmetric(EdgeSet(g)), NodeSet(g))|
  {
    var U := Symmetric(EdgeSet(g));
    var V := NodeSet(g);
    var cs := Wcc(g);
    assert Inside(U, V) by {
      ValidInside(g);
      InsideReversed(EdgeSet(g), V);
    }
    assert Partition(U, V, cs) && Covered(cs) == V by {
      ClassesPartition(U, V, g.nodes);
      ClassesCover(U, V, g.nodes);
      CoveredInside(U, V, cs);
      forall n | n in V ensures n in Covered(cs) {
        assert n in g.nodes;
      }
    }
    assert SumI(Sizes(cs)) == |g.nodes| by {
      SizesSum(cs);
      DistinctCard(g.nodes);
    }
    ClassesCount(U, V, g.nodes);
  }

  /** Each weakly connected component is maximal: it holds exactly the nodes
      joined to any of its members by an undirected path. */
  lemma WccMaximal(g: Graph, i: nat, x: Node, y: Node)
    requires Valid(g) && i < |Wcc(g)| && x in Wcc(g)[i]
    ensures y in Wcc(g)[i] <==> Reaches(Symmetric(EdgeSet(g)), x, y)
  {
    var U := Symmetric(EdgeSet(g));
    var V := NodeSet(g);
    ValidInside(g);
    InsideReversed(EdgeSet(g), V);
    ClassesPartition(U, V, g.nodes);
    SymmetricClass(EdgeSet(g), V, x);
    ReachesIffBall(U, V, x, y);
  }

  /** The strongly connected components partition the nodes, and each holds
      exactly the nodes that reach a member and are reached from it. */
  lemma SccPartition(g: Graph, i: nat, x: Node, y: Node)
    requires Valid(g)
    ensures Partition(EdgeSet(g), NodeSet(g), Scc(g))
    ensures Covered(Scc(g)) == NodeSet(g)
    ensures i < |Scc(g)| && x in Scc(g)[i] ==>
              (y in Scc(g)[i] <==> Reaches(EdgeSet(g), x, y) && Reaches(EdgeSet(g), y, x))
  {
    var E := EdgeSet(g);
    var V := NodeSet(g);
    var cs := Scc(g);
    ValidInside(g);
    assert Partition(E, V, cs) && Covered(cs) == V by {
      ClassesPartition(E, V, g.nodes);
      ClassesCover(E, V, g.nodes);
      CoveredInside(E, V, cs);
      forall n | n in V ensures n in Covered(cs) {
        assert n in g.nodes;
      }
    }
    if i < |cs| && x in cs[i] {
      assert cs[i] == ClassOf(E, V, x) && x in V;
      ClassMember(E, V, x, y);
      ReachesIffBall(E, V, x, y);
      if y in V {
        ReachesIffBall(E, V, y, x);
      } else {
        BallInside(E, V, x, |V|);
      }
    }
  }

  /** `compute_weakly_connected_components`. */
  method ComputeWeaklyConnectedComponents(g: Graph) returns (cs: seq<set<Node>>)
    requires Valid(g)
    ensures cs == Wcc(g)
    ensures Partition(Symmetric(EdgeSet(g)), NodeSet(g), cs) && Covered(cs) == NodeSet(g)
  {
    cs := WeaklyConnectedComponents(EdgeSet(g), g.nodes);
    WccPartition(g);
  }

  /** `compute_strongly_connected_components`. */
  method ComputeStronglyConnectedComponents(g: Graph) returns (cs: seq<set<Node>>)
    requires Valid(g)
    ensures cs == Scc(g)
    ensures Partition(EdgeSet(g), NodeSet(g), cs) && Covered(cs) == NodeSet(g)
  {
    cs := StronglyConnectedComponents(EdgeSet(g), g.nodes);
    SccPartition(g, 0, 0, 0);
  }

  // ---------------------------------------------------------------------------
  // The largest component

  /** What `max(components, key=len)` returns: the first component of
      greatest size; the empty set when there is none. */
  function FirstLargest(cs: seq<set<Node>>): (r: set<Node>)
    ensures cs == [] ==> r == {}
    ensures cs != [] ==> r in cs && forall c :: c in cs ==> |c| <= |r|
    ensures cs != [] ==> exists i :: 0 <= i < |cs| && cs[i] == r && forall j :: 0 <= j < i ==> |cs[j]| < |r|
    decreases |cs|
  {
    if cs == [] then {}
    else if |cs| == 1 then cs[0]
    else
      var init, last := cs[..|cs| - 1], cs[|cs| - 1];
      var m := FirstLargest(init);
      assert forall c :: c in cs ==> c in init || c == last;
      assert forall j :: 0 <= j < |init| ==> cs[j] == init[j];
      if |last| > |m| then
        assert forall j :: 0 <= j < |cs| - 1 ==> |cs[j]| < |last|;
        last
      else
        m
  }

  /** The components of a graph with nodes are nonempty, and so is the largest. */
  lemma WccNonempty(g: Graph)
    requires Valid(g) && g.nodes != []
    ensures Wcc(g) != [] && FirstLargest(Wcc(g)) != {}
    ensures |FirstLargest(Wcc(g))| <= |g.nodes|
  {
    var cs := Wcc(g);
    var V := NodeSet(g);
    assert Covered(cs) == V && forall i :: 0 <= i < |cs| ==> cs[i] != {} by {
      WccPartition(g);
    }
    assert cs != [] by {
      assert g.nodes[0] in V;
    }
    var c := FirstLargest(cs);
    var i :| 0 <= i < |cs| && cs[i] == c;
    assert c <= V by {
      forall x | x in c ensures x in V {
        CoveredMember(cs, x);
      }
    }
    SubsetCard(c, V);
    DistinctCard(g.nodes);
  }

  /** `get_largest_component`: the empty set for an empty graph, else the
      first weakly connected component of greatest size. */
  method GetLargestComponent(g: Graph) returns (c: set<Node>)
    requires Valid(g)
    ensures g.nodes == [] ==> c == {}
    ensures g.nodes != [] ==> c in Wcc(g) && c != {} && forall d :: d in Wcc(g) ==> |d| <= |c|
    ensures c == FirstLargest(Wcc(g))
  {
    if |g.nodes| == 0 {
      return {};
    }
    var cs := WeaklyConnectedComponents(EdgeSet(g), g.nodes);
    WccNonempty(g);
    c := FirstLargest(cs);
  }

  /** `compute_network_coverage`: the percentage of nodes in the largest
      weakly connected component, 0 for an empty graph. */
  method ComputeNetworkCoverage(g: Graph) returns (pct: real)
    requires Valid(g)
    ensures g.nodes == [] ==> pct == 0.0
    ensures g.nodes != [] ==> pct == |FirstLargest(Wcc(g))| as real / |g.nodes| as real * 100.0
    ensures g.nodes != [] ==> 0.0 < pct <= 100.0
  {
    if |g.nodes| == 0 {
      return 0.0;
    }
    var largest := GetLargestComponent(g);
    WccNonempty(g);
    pct := |largest| as real / |g.nodes| as real * 100.0;
    PctBounds(|largest|, |g.nodes|);
  }

  /** A nonempty part of a nonempty whole is a share above 0 and at most 100 percent. */
  lemma PctBounds(part: nat, n: nat)
    requires 0 < part <= n
    ensures 0.0 < part as real / n as real * 100.0 <= 100.0
  {
    RatioBetween(0, part, 1, n);
    assert part as real / n as real > 0.0;
  }

  // ---------------------------------------------------------------------------
  // Sorting the sizes in place

  predicate NonIncreasing(s: seq<int>)
  {
    forall i, j :: 0 <= i < j < |s| ==> s[i] >= s[j]
  }

  /** Exchanges two entries. */
  method Swap(a: array<int>, i: nat, j: nat)
    requires i < a.Length && j < a.Length
    modifies a
    ensures a[..] == old(a[..])[i := old(a[j])][j := old(a[i])]
    ensures multiset(a[..]) == old(multiset(a[..]))
  {
    a[i], a[j] := a[j], a[i];
  }

  /** Moves a[i] left past every smaller entry before it, so that a[..i + 1]
      is sorted when a[..i] was. */
  method InsertLeft(a: array<int>, i: nat)
    requires i < a.Length && NonIncreasing(a[..i])
    modifies a
    ensures NonIncreasing(a[..i + 1])
    ensures a[i + 1..] == old(a[i + 1..])
    ensures multiset(a[..]) == old(multiset(a[..]))
  {
    var j := i;
    while j > 0 && a[j - 1] < a[j]
      invariant 0 <= j <= i
      invariant forall p, q :: 0 <= p < q <= i && p != j && q != j ==> a[p] >= a[q]
      invariant forall q :: j < q <= i ==> a[j] >= a[q]
      invariant a[i + 1..] == old(a[i + 1..])
      invariant multiset(a[..]) == old(multiset(a[..]))
      decreases j
    {
      Swap(a, j - 1, j);
      j := j - 1;
    }
  }

  /** `component_sizes.sort(reverse=True)`: an insertion sort in place. */
  method SortSizes(a: array<int>)
    modifies a
    ensures NonIncreasing(a[..])
    ensures multiset(a[..]) == old(multiset(a[..]))
  {
    var i := 0;
    while i < a.Length
      invariant 0 <= i <= a.Length
      invariant NonIncreasing(a[..i])
      invariant multiset(a[..]) == old(multiset(a[..]))
    {
      InsertLeft(a, i);
      i := i + 1;
    }
    assert a[..a.Length] == a[..];
  }

  /** A sorted copy: the list of sizes sorted largest first. */
  method SortedCopy(s: seq<int>) returns (r: seq<int>)
    ensures NonIncreasing(r) && multiset(r) == multiset(s)
  {
    var a := new int[|s|](i requires 0 <= i < |s| => s[i]);
    assert a[..] == s;
    SortSizes(a);
    r := a[..];
  }

  // ---------------------------------------------------------------------------
  // Size statistics

  /** The four buckets of the size histogram. */
  datatype Distribution = Distribution(single: nat, small: nat, medium: nat, large: nat)

  datatype ComponentStats = ComponentStats(
    numComponents: nat,
    largestSize: nat,
    largestPct: real,
    numIsolated: nat,
    sizes: seq<int>,
    distribution: Option<Distribution>)

  /** The histogram of sizes: 1, 2-10, 11-`top` and more than `top` nodes. */
  function Histogram(sizes: seq<int>, top: int): Distribution
  {
    Distribution(CountBetween(sizes, 1, 1), CountBetween(sizes, 2, 10),
                 CountBetween(sizes, 11, top), CountAbove(sizes, top))
  }

  function Total(d: Distribution): nat
  {
    d.single + d.small + d.medium + d.large
  }

  /** Every positive size is counted in exactly one bucket. */
  lemma HistogramTotal(sizes: seq<int>, top: int)
    requires top > 10
    requires forall x :: x in sizes ==> x >= 1
    ensures Total(Histogram(sizes, top)) == |sizes|
  {
    BucketsCover(sizes, 10, top);
  }

  /** What a sorted list of the sizes of nonempty sets tells: its head is the
      size of the first largest set, it has the same sum, and no entry is 0. */
  lemma SortedOf(cs: seq<set<Node>>, sizes: seq<int>)
    requires cs != [] && forall i :: 0 <= i < |cs| ==> cs[i] != {}
    requires NonIncreasing(sizes) && multiset(sizes) == multiset(Sizes(cs))
    ensures |sizes| == |cs| && sizes[0] == |FirstLargest(cs)|
    ensures SumI(sizes) == SumI(Sizes(cs))
    ensures forall x :: x in sizes ==> x >= 1
  {
    SumPermutation(sizes, Sizes(cs));
    assert |sizes| == |multiset(sizes)| == |Sizes(cs)|;
    SameElements(sizes, Sizes(cs));
    var big := FirstLargest(cs);
    var k :| 0 <= k < |cs| && cs[k] == big;
    assert Sizes(cs)[k] == |big|;
    assert |big| in Sizes(cs);
    assert |big| in sizes;
    var p :| 0 <= p < |sizes| && sizes[p] == |big|;
    assert sizes[0] in Sizes(cs);
    var q :| 0 <= q < |cs| && Sizes(cs)[q] == sizes[0];
    assert cs[q] in cs;
    assert sizes[0] >= sizes[p];
    forall x | x in sizes ensures x >= 1 {
      assert x in Sizes(cs);
      var r :| 0 <= r < |cs| && Sizes(cs)[r] == x;
      assert cs[r] != {};
    }
  }

  /** The sorted list of the component sizes: its head is the largest
      component's size, it sums to the node count, and no entry is 0. */
  lemma SortedSizes(g: Graph, sizes: seq<int>)
    requires Valid(g) && g.nodes != []
    requires NonIncreasing(sizes) && multiset(sizes) == multiset(Sizes(Wcc(g)))
    ensures |sizes| == |Wcc(g)| > 0 && sizes[0] == |FirstLargest(Wcc(g))|
    ensures SumI(sizes) == |g.nodes|
    ensures forall x :: x in sizes ==> x >= 1
  {
    var cs := Wcc(g);
    assert cs != [] && SumI(Sizes(cs)) == |g.nodes| && forall i :: 0 <= i < |cs| ==> cs[i] != {} by {
      WccPartition(g);
      WccNonempty(g);
    }
    SortedOf(cs, sizes);
  }

  /** `analyze_components`: all zeros for an empty graph; otherwise the
      component count, the sizes sorted largest first, the largest size and
      its share in percent, the isolated nodes and the size histogram. */
  method AnalyzeComponents(g: Graph) returns (stats: ComponentStats)
    requires Valid(g)
    ensures g.nodes == [] ==> stats == ComponentStats(0, 0, 0.0, 0, [], None)
    ensures stats.numComponents == 0 <==> g.nodes == []
    ensures g.nodes != [] ==> stats.numComponents == |Wcc(g)| == |ClassSet(Symmetric(EdgeSet(g)), NodeSet(g))|
    ensures g.nodes != [] ==> NonIncreasing(stats.sizes) && multiset(stats.sizes) == multiset(Sizes(Wcc(g)))
    ensures g.nodes != [] ==> SumI(stats.sizes) == |g.nodes|
    ensures g.nodes != [] ==> stats.sizes != [] && stats.largestSize == stats.sizes[0] == |FirstLargest(Wcc(g))|
    ensures g.nodes != [] ==> stats.largestPct == stats.largestSize as real / |g.nodes| as real * 100.0
    ensures g.nodes != [] ==> stats.numIsolated == CountBetween(stats.sizes, 1, 1)
    ensures g.nodes != [] ==> stats.distribution == Some(Histogram(stats.sizes, 100))
    ensures g.nodes != [] ==> Total(Histogram(stats.sizes, 100)) == stats.numComponents
  {
    if |g.nodes| == 0 {
      return ComponentStats(0, 0, 0.0, 0, [], None);
    }
    var components := WeaklyConnectedComponents(EdgeSet(g), g.nodes);
    var sizes := SortedCopy(Sizes(components));
    assert |components| == |ClassSet(Symmetric(EdgeSet(g)), NodeSet(g))| by {
      WccPartition(g);
    }
    SortedSizes(g, sizes);
    HistogramTotal(sizes, 100);
    var largest := sizes[0];
    var n := |g.nodes|;
    stats := ComponentStats(
      |components|, largest, largest as real / n as real * 100.0,
      CountBetween(sizes, 1, 1), sizes, Some(Histogram(sizes, 100)));
  }

  // ---------------------------------------------------------------------------
  // Connectivity health

  datatype Health = Excellent | Good | Moderate | Fragmented

  /** The verdict for a coverage percentage: at least 90, 75, 50, or less. */
  function HealthOf(coverage: real): Health
  {
    if coverage >= 90.0 then Excellent
    else if coverage >= 75.0 then Good
    else if coverage >= 50.0 then Moderate
    else Fragmented
  }

  /** 0 for the best verdict, 3 for the worst. */
  function Severity(h: Health): nat
  {
    match h
    case Excellent => 0
    case Good => 1
    case Moderate => 2
    case Fragmented => 3
  }

  /** A percentage threshold on part / n is an integer threshold on part. */
  lemma PctAtLeast(part: nat, n: nat, t: nat)
    requires n > 0
    ensures part as real / n as real * 100.0 >= t as real <==> 100 * part >= t * n
  {
    var q := part as real / n as real;
    var pct := q * 100.0;
    assert q * n as real == part as real;
    assert pct * n as real == (100 * part) as real;
    if pct >= t as real {
      assert pct * n as real >= t as real * n as real;
    } else {
      assert pct * n as real < t as real * n as real;
    }
  }

  /** The thresholds on the percentage are thresholds on the largest
      component's size: `pct >= 90` exactly when `10 * largest >= 9 * n`. */
  lemma HealthByCount(largest: nat, n: nat)
    requires n > 0
    ensures var h := HealthOf(largest as real / n as real * 100.0);
            && (h == Excellent <==> 10 * largest >= 9 * n)
            && (h == Good <==> 4 * largest >= 3 * n && 10 * largest < 9 * n)
            && (h == Moderate <==> 2 * largest >= n && 4 * largest < 3 * n)
            && (h == Fragmented <==> 2 * largest < n)
  {
    PctAtLeast(largest, n, 90);
    PctAtLeast(largest, n, 75);
    PctAtLeast(largest, n, 50);
  }

  /** More coverage never gives a worse verdict. */
  lemma HealthMonotone(c1: real, c2: real)
    requires c1 <= c2
    ensures Severity(HealthOf(c2)) <= Severity(HealthOf(c1))
  {
  }

  datatype Connectivity =
    | EmptyNetwork
    | Connectivity(health: Health, coverage: real, numComponents: nat, fragmented: bool, hasIsolated: bool)

  /** `analyze_component_connectivity`: the empty verdict exactly for an empty
      graph; otherwise the verdict for the largest component's share, whether
      there are more than 10 components, and whether some node stands alone. */
  method AnalyzeComponentConnectivity(g: Graph) returns (c: Connectivity)
    requires Valid(g)
    ensures c.EmptyNetwork? <==> g.nodes == []
    ensures c.Connectivity? ==> c.coverage == |FirstLargest(Wcc(g))| as real / |g.nodes| as real * 100.0
    ensures c.Connectivity? ==> c.health == HealthOf(c.coverage)
    ensures c.Connectivity? ==> c.numComponents == |Wcc(g)|
    ensures c.Connectivity? ==> (c.fragmented <==> |Wcc(g)| > 10)
    ensures c.Connectivity? ==> (c.hasIsolated <==> exists d :: d in Wcc(g) && |d| == 1)
  {
    var stats := AnalyzeComponents(g);
    if stats.numComponents == 0 {
      return EmptyNetwork;
    }
    var coverage := stats.largestPct;
    c := Connectivity(HealthOf(coverage), coverage, stats.numComponents,
                      stats.numComponents > 10, stats.numIsolated > 0);
    IsolatedPresent(g, stats.sizes);
  }

  /** Some size in the sorted list is 1 exactly when some component has one node. */
  lemma IsolatedPresent(g: Graph, sizes: seq<int>)
    requires multiset(sizes) == multiset(Sizes(Wcc(g)))
    ensures CountBetween(sizes, 1, 1) > 0 <==> exists d :: d in Wcc(g) && |d| == 1
  {
    var cs := Wcc(g);
    CountBetweenPositive(sizes, 1, 1);
    if CountBetween(sizes, 1, 1) > 0 {
      var x :| x in sizes && 1 <= x <= 1;
      assert x in multiset(sizes);
      assert x in Sizes(cs);
      var r :| 0 <= r < |cs| && Sizes(cs)[r] == x;
      assert cs[r] in cs;
    }
    if exists d :: d in cs && |d| == 1 {
      var d :| d in cs && |d| == 1;
      var r :| 0 <= r < |cs| && cs[r] == d;
      assert Sizes(cs)[r] == 1;
      assert 1 in multiset(Sizes(cs));
      assert 1 in sizes;
    }
  }

  // ---------------------------------------------------------------------------
  // Articulation points

  /** The edges that do not touch v: the graph with v removed. */
  function Without(E: Arcs, v: Node): Arcs
  {
    set e | e in E && e.0 != v && e.1 != v
  }

  /** The number of connected components of the undirected projection. */
  function ComponentCount(E: Arcs, V: set<Node>): nat
  {
    |ClassSet(Symmetric(E), V)|
  }

  /** v is an articulation point of the undirected projection: removing it
      leaves more connected components than there were. */
  predicate IsArticulation(g: Graph, v: Node)
  {
    && v in NodeSet(g)
    && ComponentCount(Without(EdgeSet(g), v), NodeSet(g) - {v}) > ComponentCount(EdgeSet(g), NodeSet(g))
  }

  /** Counting the components of the graph without v by listing them along
      the remaining nodes. */
  lemma CountWithout(g: Graph, v: Node, rest: seq<Node>)
    requires Valid(g) && rest == Select(g.nodes, NodeSet(g) - {v})
    ensures Elems(rest) == NodeSet(g) - {v}
    ensures |ClassesUpTo(Symmetric(Without(EdgeSet(g), v)), Elems(rest), rest)|
            == ComponentCount(Without(EdgeSet(g), v), NodeSet(g) - {v})
  {
    var F := Without(EdgeSet(g), v);
    var W := NodeSet(g) - {v};
    assert Elems(rest) == W;
    assert Inside(F, W);
    InsideReversed(F, W);
    ClassesCount(Symmetric(F), W, rest);
  }

  /** The articulation points of the graph. */
  ghost function Articulations(g: Graph): set<Node>
  {
    set v | v in NodeSet(g) && IsArticulation(g, v)
  }

  /** Whether removing v leaves more components than the whole graph has,
      counted by listing the components of what remains. */
  method IsBridge(g: Graph, v: Node, wholeCount: nat) returns (b: bool)
    requires Valid(g) && wholeCount == ComponentCount(EdgeSet(g), NodeSet(g))
    requires v in NodeSet(g)
    ensures b <==> v in Articulations(g)
  {
    var rest := Select(g.nodes, NodeSet(g) - {v});
    var parts := WeaklyConnectedComponents(Without(EdgeSet(g), v), rest);
    CountWithout(g, v, rest);
    b := |parts| > wholeCount;
  }

  /** The number of components of the whole graph, listed along its nodes. */
  method CountComponents(g: Graph) returns (n: nat)
    requires Valid(g)
    ensures n == ComponentCount(EdgeSet(g), NodeSet(g))
  {
    var whole := WeaklyConnectedComponents(EdgeSet(g), g.nodes);
    WccPartition(g);
    n := |whole|;
  }

  /** Keeping the articulation points of a duplicate-free node order keeps each once. */
  lemma BridgesSelected(g: Graph, bridges: seq<Node>)
    requires Valid(g) && bridges == Select(g.nodes, Articulations(g))
    ensures forall v :: v in bridges <==> IsArticulation(g, v)
    ensures Distinct(bridges)
  {
    SelectDistinct(g.nodes, Articulations(g));
  }

  /** `find_bridge_nodes`: the articulation points of the undirected
      projection, each once, in node order. */
  method FindBridgeNodes(g: Graph) returns (bridges: seq<Node>)
    requires Valid(g)
    ensures forall v :: v in bridges <==> IsArticulation(g, v)
    ensures Distinct(bridges)
  {
    var whole := CountComponents(g);
    bridges := [];
    for i := 0 to |g.nodes|
      invariant bridges == Select(g.nodes[..i], Articulations(g))
    {
      var v := g.nodes[i];
      var b := IsBridge(g, v, whole);
      SelectSnoc(g.nodes, i, Articulations(g));
      if b {
        bridges := bridges + [v];
      }
    }
    assert g.nodes[..|g.nodes|] == g.nodes;
    BridgesSelected(g, bridges);
  }
}
