/** Directed reachability over a finite edge relation: the graph primitives the
    analyses borrow from their graph library, defined from scratch.

    `Ball(E, s, k)` is the set of nodes reachable from `s` in at most `k` hops,
    `Layer(E, s, k)` the nodes whose shortest directed distance from `s` is
    exactly `k`. The lemmas give these sets their meaning in terms of walks;
    the breadth-first search that computes them is in `Traversal`. */
module Digraph {

  type Node = int

  /** An edge relation: `(u, v) in E` is a directed edge from u to v. */
  type Arcs = set<(Node, Node)>

  /** The nodes one hop after some node of S. */
  function Succ(E: Arcs, S: set<Node>): set<Node>
  {
    set e | e in E && e.0 in S :: e.1
  }

  /** Every edge turned around: the in-neighbours become out-neighbours. */
  function Reversed(E: Arcs): Arcs
  {
    set e | e in E :: (e.1, e.0)
  }

  /** The undirected projection: neighbours are in-neighbours together with out-neighbours. */
  function Symmetric(E: Arcs): Arcs
  {
    E + Reversed(E)
  }

  /** Nodes reachable from s in at most k hops. */
  function Ball(E: Arcs, s: Node, k: nat): set<Node>
    decreases k
  {
    if k == 0 then {s} else Ball(E, s, k - 1) + Succ(E, Ball(E, s, k - 1))
  }

  /** Nodes at shortest directed distance exactly k from s. */
  function Layer(E: Arcs, s: Node, k: nat): set<Node>
  {
    if k == 0 then {s} else Ball(E, s, k) - Ball(E, s, k - 1)
  }

  /** Every endpoint of every edge lies in V. */
  ghost predicate Inside(E: Arcs, V: set<Node>)
  {
    forall e :: e in E ==> e.0 in V && e.1 in V
  }

  /** A walk: consecutive nodes are joined by edges. */
  ghost predicate IsWalk(E: Arcs, p: seq<Node>)
  {
    |p| >= 1 && forall i :: 0 <= i < |p| - 1 ==> (p[i], p[i + 1]) in E
  }

  /** Some walk from s to t uses at most k edges. */
  ghost predicate WalkWithin(E: Arcs, s: Node, t: Node, k: nat)
  {
    exists p :: IsWalk(E, p) && p[0] == s && p[|p| - 1] == t && |p| <= k + 1
  }

  // ---------------------------------------------------------------------------
  // Elementary facts about Succ and Ball

  lemma SuccIntro(E: Arcs, S: set<Node>, u: Node, v: Node)
    requires u in S && (u, v) in E
    ensures v in Succ(E, S)
  {
    assert (u, v).0 in S;
  }

  lemma SuccElim(E: Arcs, S: set<Node>, v: Node) returns (u: Node)
    requires v in Succ(E, S)
    ensures u in S && (u, v) in E
  {
    var e :| e in E && e.0 in S && e.1 == v;
    u := e.0;
  }

  lemma SuccMono(E: Arcs, A: set<Node>, B: set<Node>)
    requires A <= B
    ensures Succ(E, A) <= Succ(E, B)
  {
  }

  lemma SuccUnion(E: Arcs, A: set<Node>, B: set<Node>)
    ensures Succ(E, A + B) == Succ(E, A) + Succ(E, B)
  {
    forall v | v in Succ(E, A + B) ensures v in Succ(E, A) + Succ(E, B) {
      var u := SuccElim(E, A + B, v);
      if u in A { SuccIntro(E, A, u, v); } else { SuccIntro(E, B, u, v); }
    }
  }

  lemma {:induction false} BallMono(E: Arcs, s: Node, i: nat, j: nat)
    requires i <= j
    ensures Ball(E, s, i) <= Ball(E, s, j)
    decreases j
  {
    if i < j {
      BallMono(E, s, i, j - 1);
    }
  }

  lemma {:induction false} SourceInBall(E: Arcs, s: Node, k: nat)
    ensures s in Ball(E, s, k)
  {
    BallMono(E, s, 0, k);
  }

  /** With every edge inside V and s in V, every ball stays inside V. */
  lemma {:induction false} BallInside(E: Arcs, V: set<Node>, s: Node, k: nat)
    requires Inside(E, V) && s in V
    ensures Ball(E, s, k) <= V
    decreases k
  {
    if k > 0 {
      BallInside(E, V, s, k - 1);
      forall v | v in Succ(E, Ball(E, s, k - 1)) ensures v in V {
        var u := SuccElim(E, Ball(E, s, k - 1), v);
      }
    }
  }

  /** The ball of radius k+1 is the ball of radius k plus the new nodes one hop
      after the layer k: breadth-first search only needs to expand its frontier. */
  lemma FrontierStep(E: Arcs, s: Node, k: nat)
    ensures Ball(E, s, k + 1) == Ball(E, s, k) + (Succ(E, Layer(E, s, k)) - Ball(E, s, k))
  {
    if k > 0 {
      BallMono(E, s, k - 1, k);
      assert Ball(E, s, k) == Ball(E, s, k - 1) + Layer(E, s, k);
      SuccUnion(E, Ball(E, s, k - 1), Layer(E, s, k));
    }
  }

  lemma LayerInBall(E: Arcs, s: Node, d: nat)
    ensures Layer(E, s, d) <= Ball(E, s, d)
  {
  }

  /** A node has one distance: two layers it belongs to are the same layer. */
  lemma LayerUnique(E: Arcs, s: Node, t: Node, d1: nat, d2: nat)
    requires t in Layer(E, s, d1) && t in Layer(E, s, d2)
    ensures d1 == d2
  {
    if d1 < d2 {
      BallMono(E, s, d1, d2 - 1);
    } else if d2 < d1 {
      BallMono(E, s, d2, d1 - 1);
    }
  }

  /** Nodes within k hops are exactly those at some distance d <= k. */
  lemma {:induction false} BallHasLayer(E: Arcs, s: Node, t: Node, k: nat) returns (d: nat)
    requires t in Ball(E, s, k)
    ensures d <= k && t in Layer(E, s, d)
    decreases k
  {
    if k == 0 || t !in Ball(E, s, k - 1) {
      d := k;
    } else {
      d := BallHasLayer(E, s, t, k - 1);
    }
  }

  /** Every node at distance d > 0 has an in-neighbour at distance d - 1. */
  lemma Predecessor(E: Arcs, s: Node, t: Node, d: nat) returns (u: Node)
    requires d > 0 && t in Layer(E, s, d)
    ensures u in Layer(E, s, d - 1) && (u, t) in E
  {
    u := SuccElim(E, Ball(E, s, d - 1), t);
    if d >= 2 && u in Ball(E, s, d - 2) {
      assert false;
    }
  }

  // ---------------------------------------------------------------------------
  // Walks: the meaning of Ball and Layer

  /** The last node of a walk lies within |p| - 1 hops of its first node. */
  lemma {:induction false} WalkInBall(E: Arcs, p: seq<Node>)
    requires IsWalk(E, p)
    ensures p[|p| - 1] in Ball(E, p[0], |p| - 1)
    decreases |p|
  {
    if |p| > 1 {
      var init := p[..|p| - 1];
      assert IsWalk(E, init);
      WalkInBall(E, init);
      SuccIntro(E, Ball(E, p[0], |p| - 2), p[|p| - 2], p[|p| - 1]);
    }
  }

  /** A witness walk from s to every node of Ball(E, s, k), of at most k edges. */
  lemma {:induction false} BallWalk(E: Arcs, s: Node, t: Node, k: nat) returns (p: seq<Node>)
    requires t in Ball(E, s, k)
    ensures IsWalk(E, p) && p[0] == s && p[|p| - 1] == t && |p| <= k + 1
    decreases k
  {
    if k == 0 {
      p := [s];
    } else if t in Ball(E, s, k - 1) {
      p := BallWalk(E, s, t, k - 1);
    } else {
      var u := SuccElim(E, Ball(E, s, k - 1), t);
      var q := BallWalk(E, s, u, k - 1);
      p := q + [t];
      forall i | 0 <= i < |p| - 1 ensures (p[i], p[i + 1]) in E {
        if i < |q| - 1 {
          assert p[i] == q[i] && p[i + 1] == q[i + 1];
        }
      }
    }
  }

  /** Ball(E, s, k) is exactly the set of nodes some walk from s reaches with at most k edges. */
  lemma BallIsWalkWithin(E: Arcs, s: Node, t: Node, k: nat)
    ensures t in Ball(E, s, k) <==> WalkWithin(E, s, t, k)
  {
    if t in Ball(E, s, k) {
      var p := BallWalk(E, s, t, k);
    }
    if WalkWithin(E, s, t, k) {
      var p :| IsWalk(E, p) && p[0] == s && p[|p| - 1] == t && |p| <= k + 1;
      WalkInBall(E, p);
      BallMono(E, s, |p| - 1, k);
    }
  }

  /** Layer(E, s, d) is exactly the set of nodes whose shortest walk from s has d edges. */
  lemma LayerIsDistance(E: Arcs, s: Node, t: Node, d: nat)
    ensures t in Layer(E, s, d) <==> WalkWithin(E, s, t, d) && (d == 0 || !WalkWithin(E, s, t, d - 1))
  {
    BallIsWalkWithin(E, s, t, d);
    if d > 0 {
      BallIsWalkWithin(E, s, t, d - 1);
    } else if WalkWithin(E, s, t, 0) {
      var p :| IsWalk(E, p) && p[0] == s && p[|p| - 1] == t && |p| <= 1;
    }
  }

  /** No walk to a node at distance d is shorter than d edges. */
  lemma NoShorterWalk(E: Arcs, s: Node, t: Node, d: nat, p: seq<Node>)
    requires t in Layer(E, s, d)
    requires IsWalk(E, p) && p[0] == s && p[|p| - 1] == t
    ensures |p| - 1 >= d
  {
    WalkInBall(E, p);
    if |p| - 1 < d {
      BallMono(E, s, |p| - 1, d - 1);
    }
  }

  /** Prepending a node joined by an edge to the first node extends a walk. */
  lemma WalkCons(E: Arcs, u: Node, p: seq<Node>)
    requires IsWalk(E, p) && (u, p[0]) in E
    ensures IsWalk(E, [u] + p)
  {
    var q := [u] + p;
    forall i | 0 <= i < |q| - 1 ensures (q[i], q[i + 1]) in E {
      if i > 0 {
        assert q[i] == p[i - 1] && q[i + 1] == p[i];
      }
    }
  }

  /** Some walk leads from s to t. */
  ghost predicate Reaches(E: Arcs, s: Node, t: Node)
  {
    exists p :: IsWalk(E, p) && p[0] == s && p[|p| - 1] == t
  }

  /** In a graph on V, t is reachable from s exactly when it is within |V| hops. */
  lemma ReachesIffBall(E: Arcs, V: set<Node>, s: Node, t: Node)
    requires Inside(E, V) && s in V
    ensures Reaches(E, s, t) <==> t in Ball(E, s, |V|)
  {
    if t in Ball(E, s, |V|) {
      var p := BallWalk(E, s, t, |V|);
    }
    if Reaches(E, s, t) {
      var p :| IsWalk(E, p) && p[0] == s && p[|p| - 1] == t;
      WalkInBall(E, p);
      BallBounded(E, V, s, |p| - 1);
    }
  }

  // ---------------------------------------------------------------------------
  // Composition and reversal

  /** Hops add up: a node within j hops of a node within i hops of s is within i + j hops of s. */
  lemma {:induction false} BallTrans(E: Arcs, s: Node, x: Node, y: Node, i: nat, j: nat)
    requires x in Ball(E, s, i) && y in Ball(E, x, j)
    ensures y in Ball(E, s, i + j)
    decreases j
  {
    if j == 0 {
    } else if y in Ball(E, x, j - 1) {
      BallTrans(E, s, x, y, i, j - 1);
      BallMono(E, s, i + j - 1, i + j);
    } else {
      var z := SuccElim(E, Ball(E, x, j - 1), y);
      BallTrans(E, s, x, z, i, j - 1);
      SuccIntro(E, Ball(E, s, i + j - 1), z, y);
    }
  }

  /** Prepending the reversal of an edge (z, y) to a reversed walk from z. */
  lemma ReversedPrepend(E: Arcs, y: Node, z: Node, x: Node, k: nat)
    requires (z, y) in E && k > 0 && x in Ball(Reversed(E), z, k - 1)
    ensures x in Ball(Reversed(E), y, k)
  {
    var R := Reversed(E);
    assert (y, z) in R;
    SuccIntro(R, Ball(R, y, 0), y, z);
    assert z in Ball(R, y, 1);
    BallTrans(R, y, z, x, 1, k - 1);
  }

  /** Turning every edge around turns every walk around. */
  lemma {:induction false} BallReverse(E: Arcs, x: Node, y: Node, k: nat)
    requires y in Ball(E, x, k)
    ensures x in Ball(Reversed(E), y, k)
    decreases k
  {
    if k == 0 {
    } else if y in Ball(E, x, k - 1) {
      BallReverse(E, x, y, k - 1);
      BallMono(Reversed(E), y, k - 1, k);
    } else {
      var z := SuccElim(E, Ball(E, x, k - 1), y);
      BallReverse(E, x, z, k - 1);
      ReversedPrepend(E, y, z, x, k);
    }
  }

  lemma ReversedTwice(E: Arcs)
    ensures Reversed(Reversed(E)) == E
  {
    forall e | e in E ensures e in Reversed(Reversed(E)) {
      assert (e.1, e.0) in Reversed(E);
    }
  }

  lemma SymmetricIsReversal(E: Arcs)
    ensures Reversed(Symmetric(E)) == Symmetric(E)
  {
    ReversedTwice(E);
    forall e | e in Symmetric(E) ensures e in Reversed(Symmetric(E)) {
      assert (e.1, e.0) in Symmetric(E);
    }
  }

  lemma InsideReversed(E: Arcs, V: set<Node>)
    requires Inside(E, V)
    ensures Inside(Reversed(E), V) && Inside(Symmetric(E), V)
  {
  }

  // ---------------------------------------------------------------------------
  // Saturation: a ball of radius |V| already holds every reachable node

  ghost predicate Stalls(E: Arcs, s: Node, k: nat)
  {
    Ball(E, s, k) == Ball(E, s, k + 1)
  }

  /** Equal balls stay equal one hop further out. */
  lemma SameBallNextHop(E: Arcs, s: Node, a: nat, b: nat)
    requires Ball(E, s, a) == Ball(E, s, b)
    ensures Ball(E, s, a + 1) == Ball(E, s, b + 1)
  {
  }

  /** Once the ball stops growing it never grows again. */
  lemma {:induction false} StallPersists(E: Arcs, s: Node, j: nat, m: nat)
    requires Stalls(E, s, j) && j <= m
    ensures Ball(E, s, m) == Ball(E, s, j)
    decreases m - j
  {
    if j < m {
      SameBallNextHop(E, s, j + 1, j);
      StallPersists(E, s, j + 1, m);
    }
  }

  /** Without a stall the ball gains a node per hop. */
  lemma {:induction false} Growth(E: Arcs, s: Node, k: nat)
    requires forall j: nat :: j < k ==> !Stalls(E, s, j)
    ensures |Ball(E, s, k)| >= k + 1
    decreases k
  {
    if k > 0 {
      Growth(E, s, k - 1);
      BallMono(E, s, k - 1, k);
      assert !Stalls(E, s, k - 1);
      var A, B := Ball(E, s, k - 1), Ball(E, s, k);
      assert B == A + (B - A);
      assert B - A != {};
    }
  }

  lemma SubsetCard(A: set<Node>, B: set<Node>)
    requires A <= B
    ensures |A| <= |B|
  {
    assert B == A + (B - A);
  }

  lemma Saturated(E: Arcs, V: set<Node>, s: Node)
    requires Inside(E, V) && s in V
    ensures Stalls(E, s, |V|)
  {
    if !Stalls(E, s, |V|) {
      forall j: nat | j < |V| + 1 ensures !Stalls(E, s, j) {
        if j < |V| && Stalls(E, s, j) {
          StallPersists(E, s, j, |V|);
        }
      }
      Growth(E, s, |V| + 1);
      BallInside(E, V, s, |V| + 1);
      SubsetCard(Ball(E, s, |V| + 1), V);
      assert false;
    }
  }

  /** Every ball lies inside the ball of radius |V|. */
  lemma BallBounded(E: Arcs, V: set<Node>, s: Node, k: nat)
    requires Inside(E, V) && s in V
    ensures Ball(E, s, k) <= Ball(E, s, |V|)
  {
    if k <= |V| {
      BallMono(E, s, k, |V|);
    } else {
      Saturated(E, V, s);
      StallPersists(E, s, |V|, k);
    }
  }

  /** A layer is empty when the ball did not grow at that hop. */
  lemma EqualBallsEmptyLayer(E: Arcs, s: Node, d: nat)
    requires d > 0 && Stalls(E, s, d - 1)
    ensures Layer(E, s, d) == {}
  {
  }

  /** A stall at hop j is a stall at every later hop. */
  lemma {:induction false} StallsOn(E: Arcs, s: Node, j: nat, m: nat)
    requires Stalls(E, s, j) && j <= m
    ensures Stalls(E, s, m)
    decreases m - j
  {
    if j < m {
      SameBallNextHop(E, s, j, j + 1);
      StallsOn(E, s, j + 1, m);
    }
  }

  /** After a stall every later layer is empty. */
  lemma StallEmptiesLayer(E: Arcs, s: Node, j: nat, d: nat)
    requires Stalls(E, s, j) && j < d
    ensures Layer(E, s, d) == {}
  {
    StallsOn(E, s, j, d - 1);
    EqualBallsEmptyLayer(E, s, d);
  }

  /** A nonempty layer d means the ball grew at every hop before d. */
  lemma NoStallBeforeLayer(E: Arcs, s: Node, t: Node, d: nat, j: nat)
    requires t in Layer(E, s, d) && j < d
    ensures !Stalls(E, s, j)
  {
    if Stalls(E, s, j) {
      StallEmptiesLayer(E, s, j, d);
    }
  }

  /** A distance is always smaller than the number of nodes. */
  lemma LayerBound(E: Arcs, V: set<Node>, s: Node, t: Node, d: nat)
    requires Inside(E, V) && s in V && t in Layer(E, s, d)
    ensures d < |V|
  {
    forall j: nat | j < d ensures !Stalls(E, s, j) {
      NoStallBeforeLayer(E, s, t, d, j);
    }
    Growth(E, s, d);
    BallInside(E, V, s, d);
    SubsetCard(Ball(E, s, d), V);
  }

  /** The ball of radius k splits into the ball of radius k - 1 and layer k. */
  lemma BallCard(E: Arcs, s: Node, k: nat)
    requires k > 0
    ensures |Ball(E, s, k)| == |Ball(E, s, k - 1)| + |Layer(E, s, k)|
  {
    BallMono(E, s, k - 1, k);
    assert Ball(E, s, k) == Ball(E, s, k - 1) + Layer(E, s, k);
  }

  // ---------------------------------------------------------------------------
  // Distances

  /** The shortest distance from s to a node t within `bound` hops, found by
      searching downwards from the bound: a reference definition for the
      breadth-first search below. */
  function Distance(E: Arcs, s: Node, t: Node, bound: nat): (d: nat)
    requires t in Ball(E, s, bound)
    ensures d <= bound && t in Layer(E, s, d)
    decreases bound
  {
    if bound == 0 || t !in Ball(E, s, bound - 1) then bound else Distance(E, s, t, bound - 1)
  }

  /** An empty layer ends the search: the ball stops growing there, and by
      `StallPersists` no farther layer holds anything new. */
  lemma EmptyLayerStalls(E: Arcs, s: Node, k: nat)
    requires k > 0 && Layer(E, s, k) == {}
    ensures Stalls(E, s, k - 1)
  {
    BallMono(E, s, k - 1, k);
    forall x | x in Ball(E, s, k) ensures x in Ball(E, s, k - 1) {
      assert x !in Layer(E, s, k);
    }
  }

  /** One round of the search: the new frontier is the next layer. */
  lemma NextLayer(E: Arcs, s: Node, level: nat, next: set<Node>)
    requires next == Succ(E, Layer(E, s, level)) - Ball(E, s, level)
    ensures Ball(E, s, level + 1) == Ball(E, s, level) + next
    ensures Layer(E, s, level + 1) == next
  {
    FrontierStep(E, s, level);
  }
}
