/** The signed trust graph and how it is built from rating rows.

    A row says that `source` rated `target` with an integer `rating` at `time`.
    The graph keeps its nodes in the order they were first added and holds at
    most one edge per ordered pair; a later row for a pair replaces the
    attributes an earlier one stored. The trust and distrust views keep the
    edges with positive and with negative rating, and exactly their
    endpoints. */
module TrustGraph {
  import opened Seqs
  import opened Digraph

  datatype Rating = Rating(source: Node, target: Node, rating: int, time: int)

  /** The attributes stored on an edge. */
  datatype Edge = Edge(rating: int, time: int, weight: int)

  datatype Graph = Graph(nodes: seq<Node>, edges: map<(Node, Node), Edge>)

  function Abs(x: int): nat
  {
    if x < 0 then -x else x
  }

  /** Distinct nodes, and every edge joins two of them. */
  ghost predicate Valid(g: Graph)
  {
    Distinct(g.nodes) && forall e :: e in g.edges ==> e.0 in g.nodes && e.1 in g.nodes
  }

  function NodeSet(g: Graph): set<Node>
  {
    Elems(g.nodes)
  }

  function EdgeSet(g: Graph): Arcs
  {
    g.edges.Keys
  }

  lemma ValidInside(g: Graph)
    requires Valid(g)
    ensures Inside(EdgeSet(g), NodeSet(g))
  {
  }

  // ---------------------------------------------------------------------------
  // Loading: the magnitude filter

  /** The rows whose rating has magnitude at least `threshold`, in their order. */
  function KeepRows(rows: seq<Rating>, threshold: int): (r: seq<Rating>)
    ensures forall x :: x in r <==> x in rows && Abs(x.rating) >= threshold
    ensures |r| <= |rows|
    decreases |rows|
  {
    if rows == [] then []
    else
      var init := KeepRows(rows[..|rows| - 1], threshold);
      var last := rows[|rows| - 1];
      if Abs(last.rating) >= threshold then init + [last] else init
  }

  /** Filtering commutes with concatenation, so the kept rows stay in their original order. */
  lemma {:induction false} KeepRowsAppend(a: seq<Rating>, b: seq<Rating>, threshold: int)
    ensures KeepRows(a + b, threshold) == KeepRows(a, threshold) + KeepRows(b, threshold)
    decreases |b|
  {
    if b == [] {
      assert a + b == a;
    } else {
      assert (a + b)[..|a + b| - 1] == a + b[..|b| - 1];
      KeepRowsAppend(a, b[..|b| - 1], threshold);
    }
  }

  /** With the default threshold 0 nothing is dropped. */
  lemma {:induction false} KeepRowsAll(rows: seq<Rating>, threshold: int)
    requires threshold <= 0
    ensures KeepRows(rows, threshold) == rows
    decreases |rows|
  {
    if rows != [] {
      KeepRowsAll(rows[..|rows| - 1], threshold);
    }
  }

  // ---------------------------------------------------------------------------
  // Building the graph

  function Pair(r: Rating): (Node, Node)
  {
    (r.source, r.target)
  }

  /** The attributes a row stores on its edge; the weight is the rating's magnitude. */
  function EdgeOf(r: Rating): (e: Edge)
    ensures e.rating == r.rating && e.time == r.time && e.weight == Abs(r.rating)
  {
    Edge(r.rating, r.time, Abs(r.rating))
  }

  /** Source then target of every row, in row order: the order nodes are added. */
  function Endpoints(rows: seq<Rating>): (r: seq<Node>)
    ensures |r| == 2 * |rows|
    ensures forall i :: 0 <= i < |rows| ==> r[2 * i] == rows[i].source && r[2 * i + 1] == rows[i].target
    decreases |rows|
  {
    if rows == [] then [] else Endpoints(rows[..|rows| - 1]) + [rows[|rows| - 1].source, rows[|rows| - 1].target]
  }

  /** The ordered pairs that some row rates. */
  function RatedPairs(rows: seq<Rating>): set<(Node, Node)>
  {
    set r | r in rows :: Pair(r)
  }

  /** The index of the last row rating the pair p. */
  function LastRow(rows: seq<Rating>, p: (Node, Node)): (i: nat)
    requires p in RatedPairs(rows)
    ensures i < |rows| && Pair(rows[i]) == p
    ensures forall j :: i < j < |rows| ==> Pair(rows[j]) != p
    decreases |rows|
  {
    var init := rows[..|rows| - 1];
    if Pair(rows[|rows| - 1]) == p then |rows| - 1
    else
      assert exists r :: r in init && Pair(r) == p by {
        var r :| r in rows && Pair(r) == p;
        assert r in init;
      }
      LastRow(init, p)
  }

  /** The graph library's `add_edge`: both endpoints are added if new, and the
      edge's attributes are set. */
  function AddEdge(g: Graph, u: Node, v: Node, attrs: Edge): Graph
  {
    var withU := if u in g.nodes then g.nodes else g.nodes + [u];
    var withV := if v in withU then withU else withU + [v];
    Graph(withV, g.edges[(u, v) := attrs])
  }

  /** One step of the build, node side: the endpoints of `r` are appended if new. */
  lemma AddRowNodes(g: Graph, done: seq<Rating>, r: Rating)
    requires g.nodes == Dedup(Endpoints(done))
    ensures AddEdge(g, r.source, r.target, EdgeOf(r)).nodes == Dedup(Endpoints(done + [r]))
  {
    var rows := done + [r];
    assert rows[..|rows| - 1] == done;
    var e := Endpoints(done);
    assert Endpoints(rows) == e + [r.source] + [r.target];
    DedupSnoc(e, r.source);
    DedupSnoc(e + [r.source], r.target);
  }

  /** One step of the build, edge side: the pair of `r` now carries `r`'s attributes. */
  lemma AddRowEdges(g: Graph, done: seq<Rating>, r: Rating)
    requires g.edges.Keys == RatedPairs(done)
    requires forall p :: p in g.edges ==> g.edges[p] == EdgeOf(done[LastRow(done, p)])
    ensures AddEdge(g, r.source, r.target, EdgeOf(r)).edges.Keys == RatedPairs(done + [r])
    ensures var g' := AddEdge(g, r.source, r.target, EdgeOf(r));
      forall p :: p in g'.edges ==> g'.edges[p] == EdgeOf((done + [r])[LastRow(done + [r], p)])
  {
    var rows := done + [r];
    assert rows[..|rows| - 1] == done;
    assert RatedPairs(rows) == RatedPairs(done) + {Pair(r)};
    var g' := AddEdge(g, r.source, r.target, EdgeOf(r));
    forall p | p in g'.edges ensures g'.edges[p] == EdgeOf(rows[LastRow(rows, p)]) {
      if p != Pair(r) {
        assert p in RatedPairs(done);
        assert LastRow(rows, p) == LastRow(done, p);
      }
    }
  }

  /** `build_graphs`' main loop: one `add_edge` per row, in row order. The
      nodes are every source and target in order of first appearance; the
      edges are exactly the rated pairs, each carrying the attributes of the
      last row that rates it. */
  method BuildGraph(rows: seq<Rating>) returns (g: Graph)
    ensures Valid(g)
    ensures g.nodes == Dedup(Endpoints(rows))
    ensures g.edges.Keys == RatedPairs(rows)
    ensures forall p :: p in g.edges ==> g.edges[p] == EdgeOf(rows[LastRow(rows, p)])
  {
    g := Graph([], map[]);
    for i := 0 to |rows|
      invariant g.nodes == Dedup(Endpoints(rows[..i]))
      invariant g.edges.Keys == RatedPairs(rows[..i])
      invariant forall p :: p in g.edges ==> g.edges[p] == EdgeOf(rows[..i][LastRow(rows[..i], p)])
    {
      AddRowNodes(g, rows[..i], rows[i]);
      AddRowEdges(g, rows[..i], rows[i]);
      assert rows[..i] + [rows[i]] == rows[..i + 1];
      g := AddEdge(g, rows[i].source, rows[i].target, EdgeOf(rows[i]));
    }
    assert rows[..|rows|] == rows;
    BuiltValid(rows, g);
  }

  /** A node is among the endpoints exactly when some row names it. */
  lemma EndpointsMember(rows: seq<Rating>, n: Node)
    ensures n in Endpoints(rows) <==> exists r :: r in rows && (n == r.source || n == r.target)
  {
    var e := Endpoints(rows);
    if n in e {
      var k :| 0 <= k < |e| && e[k] == n;
      var i := k / 2;
      assert k == 2 * i || k == 2 * i + 1;
      assert rows[i] in rows;
    }
    if exists r :: r in rows && (n == r.source || n == r.target) {
      var r :| r in rows && (n == r.source || n == r.target);
      var i :| 0 <= i < |rows| && rows[i] == r;
      assert e[2 * i] == r.source && e[2 * i + 1] == r.target;
    }
  }

  /** Every node of the built graph is an endpoint of some row, and every
      endpoint of a rated pair is a node. */
  lemma BuiltValid(rows: seq<Rating>, g: Graph)
    requires g.nodes == Dedup(Endpoints(rows)) && g.edges.Keys == RatedPairs(rows)
    ensures Valid(g)
    ensures forall n :: n in g.nodes <==> exists r :: r in rows && (n == r.source || n == r.target)
  {
    forall n ensures n in g.nodes <==> exists r :: r in rows && (n == r.source || n == r.target) {
      EndpointsMember(rows, n);
    }
    forall p | p in g.edges ensures p.0 in g.nodes && p.1 in g.nodes {
      var r :| r in rows && Pair(r) == p;
      assert p.0 == r.source && p.1 == r.target;
    }
  }

  /** After the build, the edge for a pair holds the last matching row's
      rating and time, and its weight is the magnitude of that rating. */
  lemma LaterRowWins(rows: seq<Rating>, g: Graph, i: nat)
    requires g.edges.Keys == RatedPairs(rows)
    requires forall p :: p in g.edges ==> g.edges[p] == EdgeOf(rows[LastRow(rows, p)])
    requires i < |rows| && forall j :: i < j < |rows| ==> Pair(rows[j]) != Pair(rows[i])
    ensures Pair(rows[i]) in g.edges
    ensures g.edges[Pair(rows[i])] == Edge(rows[i].rating, rows[i].time, Abs(rows[i].rating))
  {
    var p := Pair(rows[i]);
    assert p in RatedPairs(rows);
    var k := LastRow(rows, p);
    assert k == i;
  }

  // ---------------------------------------------------------------------------
  // Trust and distrust views

  /** Every endpoint of some edge in `keep`. */
  function EdgeEnds(keep: set<(Node, Node)>): set<Node>
  {
    (set e | e in keep :: e.0) + (set e | e in keep :: e.1)
  }

  /** The graph library's `edge_subgraph(keep).copy()`: the edges of `keep`
      with their attributes, and the nodes that are their endpoints. In the
      model the view's nodes keep the graph's node order. */
  function EdgeSubgraph(g: Graph, keep: set<(Node, Node)>): (h: Graph)
    ensures forall p :: p in h.edges <==> p in g.edges && p in keep
    ensures forall p :: p in h.edges ==> h.edges[p] == g.edges[p]
    ensures forall n :: n in h.nodes <==> n in g.nodes && n in EdgeEnds(g.edges.Keys * keep)
  {
    Graph(Select(g.nodes, EdgeEnds(g.edges.Keys * keep)), map p | p in g.edges && p in keep :: g.edges[p])
  }

  function PositivePairs(g: Graph): set<(Node, Node)>
  {
    set p | p in g.edges && g.edges[p].rating > 0
  }

  function NegativePairs(g: Graph): set<(Node, Node)>
  {
    set p | p in g.edges && g.edges[p].rating < 0
  }

  function TrustView(g: Graph): Graph
  {
    EdgeSubgraph(g, PositivePairs(g))
  }

  function DistrustView(g: Graph): Graph
  {
    EdgeSubgraph(g, NegativePairs(g))
  }

  lemma EdgeEndsMember(keep: set<(Node, Node)>, n: Node)
    ensures n in EdgeEnds(keep) <==> exists e :: e in keep && (n == e.0 || n == e.1)
  {
    if n in EdgeEnds(keep) {
      if n in (set e | e in keep :: e.0) {
        var e :| e in keep && n == e.0;
      } else {
        var e :| e in keep && n == e.1;
      }
    }
  }

  /** The kept edges of a valid graph join nodes of the graph. */
  lemma EndsAreNodes(g: Graph, keep: set<(Node, Node)>)
    requires Valid(g)
    ensures EdgeEnds(g.edges.Keys * keep) <= Elems(g.nodes)
  {
    forall n | n in EdgeEnds(g.edges.Keys * keep) ensures n in g.nodes {
      EdgeEndsMember(g.edges.Keys * keep, n);
    }
  }

  /** A view of a valid graph is valid, and its nodes are exactly the
      endpoints of its edges. */
  lemma SubgraphValid(g: Graph, keep: set<(Node, Node)>)
    requires Valid(g)
    ensures Valid(EdgeSubgraph(g, keep))
    ensures forall n :: n in EdgeSubgraph(g, keep).nodes <==> n in EdgeEnds(EdgeSubgraph(g, keep).edges.Keys)
  {
    var h := EdgeSubgraph(g, keep);
    var kept := g.edges.Keys * keep;
    SelectDistinct(g.nodes, EdgeEnds(kept));
    EndsAreNodes(g, keep);
    assert h.edges.Keys == kept;
    forall p | p in h.edges ensures p.0 in h.nodes && p.1 in h.nodes {
      EdgeEndsMember(kept, p.0);
      EdgeEndsMember(kept, p.1);
    }
  }

  /** `build_graphs`: G from the rows, then its trust and distrust views. */
  method BuildGraphs(rows: seq<Rating>) returns (g: Graph, trust: Graph, distrust: Graph)
    ensures Valid(g) && Valid(trust) && Valid(distrust)
    ensures g.nodes == Dedup(Endpoints(rows))
    ensures g.edges.Keys == RatedPairs(rows)
    ensures forall p :: p in g.edges ==> g.edges[p] == EdgeOf(rows[LastRow(rows, p)])
    ensures forall p :: p in trust.edges <==> p in g.edges && g.edges[p].rating > 0
    ensures forall p :: p in distrust.edges <==> p in g.edges && g.edges[p].rating < 0
    ensures forall p :: p in trust.edges ==> trust.edges[p] == g.edges[p]
    ensures forall p :: p in distrust.edges ==> distrust.edges[p] == g.edges[p]
    ensures forall n :: n in trust.nodes <==> n in EdgeEnds(trust.edges.Keys)
    ensures forall n :: n in distrust.nodes <==> n in EdgeEnds(distrust.edges.Keys)
  {
    g := BuildGraph(rows);
    trust := TrustView(g);
    distrust := DistrustView(g);
    SubgraphValid(g, PositivePairs(g));
    SubgraphValid(g, NegativePairs(g));
  }

  /** No pair is in both views, and a pair rated 0 is in neither. */
  lemma ViewsDisjoint(g: Graph)
    ensures TrustView(g).edges.Keys * DistrustView(g).edges.Keys == {}
    ensures forall p :: p in g.edges && g.edges[p].rating == 0 ==>
      p !in TrustView(g).edges && p !in DistrustView(g).edges
  {
    forall p | p in TrustView(g).edges ensures p !in DistrustView(g).edges {
      assert p in PositivePairs(g);
    }
  }

  // ---------------------------------------------------------------------------
  // Degree

  /** Out-degree plus in-degree: the graph library's degree of a node in a
      directed graph (a self-loop counts twice). */
  function Degree(g: Graph, v: Node): nat
  {
    |set p | p in g.edges && p.0 == v| + |set p | p in g.edges && p.1 == v|
  }
}
