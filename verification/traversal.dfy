/** The graph library's traversals, modelled as the loops they run and proved
    against the reachability vocabulary of `Digraph`. */
module Traversal {
  import opened Seqs
  import opened Digraph
  import opened Classes

  /** One level of the breadth-first search: the successors of the current
      frontier not seen before form the next frontier and are labelled with
      distance level + 1. */
  method ExpandLevel(E: Arcs, s: Node, level: nat, dist: map<Node, nat>, frontier: set<Node>)
    returns (dist': map<Node, nat>, next: set<Node>)
    requires frontier == Layer(E, s, level)
    requires dist.Keys == Ball(E, s, level)
    requires forall n {:trigger dist[n]} :: n in dist ==> n in Layer(E, s, dist[n])
    ensures next == Layer(E, s, level + 1)
    ensures dist'.Keys == Ball(E, s, level + 1)
    ensures forall n {:trigger dist'[n]} :: n in dist' ==> n in Layer(E, s, dist'[n])
  {
    next := Succ(E, frontier) - dist.Keys;
    dist' := dist + map n | n in next :: level + 1;
    NextLayer(E, s, level, next);
  }

  /** Breadth-first search from s, level by level, stopping after `cutoff`
      levels or when a level is empty: the graph library's
      `single_source_shortest_path_length(G, s, cutoff)`. Every node within
      `cutoff` hops is a key, and its value is its hop distance from s. */
  method ShortestPathLengths(E: Arcs, s: Node, cutoff: nat) returns (dist: map<Node, nat>)
    ensures dist.Keys == Ball(E, s, cutoff)
    ensures forall n {:trigger dist[n]} :: n in dist ==> n in Layer(E, s, dist[n])
  {
    dist := map[s := 0];
    var frontier := {s};
    var level := 0;
    while level < cutoff && frontier != {}
      invariant level <= cutoff
      invariant level == 0 ==> frontier == {s}
      invariant frontier == Layer(E, s, level)
      invariant dist.Keys == Ball(E, s, level)
      invariant forall n {:trigger dist[n]} :: n in dist ==> n in Layer(E, s, dist[n])
      decreases cutoff - level
    {
      dist, frontier := ExpandLevel(E, s, level, dist, frontier);
      level := level + 1;
    }
    if level < cutoff {
      EmptyLayerStalls(E, s, level);
      StallPersists(E, s, level - 1, cutoff);
    }
  }

  /** The graph library's `weakly_connected_components`: for every node in
      order that no earlier component holds, a search that follows edges in
      both directions collects its component. */
  method WeaklyConnectedComponents(E: Arcs, nodes: seq<Node>) returns (cs: seq<set<Node>>)
    ensures cs == ClassesUpTo(Symmetric(E), Elems(nodes), nodes)
  {
    var V := Elems(nodes);
    var U := Symmetric(E);
    cs := [];
    var seen: set<Node> := {};
    for i := 0 to |nodes|
      invariant cs == ClassesUpTo(U, V, nodes[..i])
      invariant seen == Covered(cs)
    {
      assert nodes[..i + 1][..i] == nodes[..i];
      var v := nodes[i];
      if v !in seen {
        var dist := ShortestPathLengths(U, v, |V|);
        SymmetricClass(E, V, v);
        cs := cs + [dist.Keys];
        seen := seen + dist.Keys;
      }
    }
    assert nodes[..|nodes|] == nodes;
  }

  /** The graph library's `strongly_connected_components`, as a set of
      classes: for every node in order that no earlier component holds, the
      nodes it reaches that also reach it. */
  method StronglyConnectedComponents(E: Arcs, nodes: seq<Node>) returns (cs: seq<set<Node>>)
    ensures cs == ClassesUpTo(E, Elems(nodes), nodes)
  {
    var V := Elems(nodes);
    var R := Reversed(E);
    cs := [];
    var seen: set<Node> := {};
    for i := 0 to |nodes|
      invariant cs == ClassesUpTo(E, V, nodes[..i])
      invariant seen == Covered(cs)
    {
      assert nodes[..i + 1][..i] == nodes[..i];
      var v := nodes[i];
      if v !in seen {
        var forward := ShortestPathLengths(E, v, |V|);
        var backward := ShortestPathLengths(R, v, |V|);
        cs := cs + [forward.Keys * backward.Keys];
        seen := seen + forward.Keys * backward.Keys;
      }
    }
    assert nodes[..|nodes|] == nodes;
  }
}
