/** Connected components as classes of mutual reachability.

    `ClassOf(E, V, n)` is the set of nodes that reach n and are reached from n.
    Over a symmetric relation (the undirected projection of a directed graph)
    these are the weakly connected components; over the directed relation
    itself, the strongly connected components. `ClassesUpTo` lists the classes
    the way the graph library does: one per node of the given order that no
    earlier class already holds. */
module Classes {
  import opened Seqs
  import opened Digraph

  function ClassOf(E: Arcs, V: set<Node>, n: Node): set<Node>
  {
    Ball(E, n, |V|) * Ball(Reversed(E), n, |V|)
  }

  /** Every node some class of `cs` holds. */
  function Covered(cs: seq<set<Node>>): set<Node>
    decreases |cs|
  {
    if cs == [] then {} else Covered(cs[..|cs| - 1]) + cs[|cs| - 1]
  }

  /** The classes in order of first appearance along `order`. */
  function ClassesUpTo(E: Arcs, V: set<Node>, order: seq<Node>): seq<set<Node>>
    decreases |order|
  {
    if order == [] then []
    else
      var prev := ClassesUpTo(E, V, order[..|order| - 1]);
      var n := order[|order| - 1];
      if n in Covered(prev) then prev else prev + [ClassOf(E, V, n)]
  }

  /** The sizes of the classes, in the same order. */
  function Sizes(cs: seq<set<Node>>): (r: seq<int>)
    ensures |r| == |cs| && forall i :: 0 <= i < |cs| ==> r[i] == |cs[i]|
    decreases |cs|
  {
    if cs == [] then [] else Sizes(cs[..|cs| - 1]) + [|cs[|cs| - 1]|]
  }

  /** The set of all classes, independent of any order. */
  function ClassSet(E: Arcs, V: set<Node>): set<set<Node>>
  {
    set n | n in V :: ClassOf(E, V, n)
  }

  /** The classes are nonempty, pairwise disjoint, and each is the class of
      every node it holds (so it is maximal). */
  ghost predicate Partition(E: Arcs, V: set<Node>, cs: seq<set<Node>>)
  {
    && (forall i :: 0 <= i < |cs| ==> cs[i] != {})
    && (forall i, x :: 0 <= i < |cs| && x in cs[i] ==> x in V && cs[i] == ClassOf(E, V, x))
    && (forall i, j :: 0 <= i < j < |cs| ==> cs[i] * cs[j] == {})
  }

  // ---------------------------------------------------------------------------
  // Mutual reachability is an equivalence

  /** Reachability within |V| hops is transitive. */
  lemma ReachTrans(E: Arcs, V: set<Node>, x: Node, y: Node, z: Node)
    requires Inside(E, V) && x in V
    requires y in Ball(E, x, |V|) && z in Ball(E, y, |V|)
    ensures z in Ball(E, x, |V|)
  {
    BallTrans(E, x, y, z, |V|, |V|);
    BallBounded(E, V, x, |V| + |V|);
  }

  /** y is in the class of x exactly when each reaches the other. */
  lemma ClassMember(E: Arcs, V: set<Node>, x: Node, y: Node)
    ensures y in ClassOf(E, V, x) <==> y in Ball(E, x, |V|) && x in Ball(E, y, |V|)
  {
    if y in Ball(Reversed(E), x, |V|) {
      BallReverse(Reversed(E), x, y, |V|);
      ReversedTwice(E);
    }
    if x in Ball(E, y, |V|) {
      BallReverse(E, y, x, |V|);
    }
  }

  lemma ClassOfSelf(E: Arcs, V: set<Node>, n: Node)
    ensures n in ClassOf(E, V, n)
  {
    SourceInBall(E, n, |V|);
    SourceInBall(Reversed(E), n, |V|);
  }

  lemma ClassInside(E: Arcs, V: set<Node>, n: Node)
    requires Inside(E, V) && n in V
    ensures ClassOf(E, V, n) <= V
  {
    BallInside(E, V, n, |V|);
  }

  /** Two nodes of one class have the same class. */
  lemma ClassOfSame(E: Arcs, V: set<Node>, x: Node, y: Node)
    requires Inside(E, V) && x in V && y in ClassOf(E, V, x)
    ensures ClassOf(E, V, y) == ClassOf(E, V, x)
  {
    ClassInside(E, V, x);
    ClassMember(E, V, x, y);
    forall z | z in ClassOf(E, V, y) ensures z in ClassOf(E, V, x) {
      ClassMember(E, V, y, z);
      ReachTrans(E, V, x, y, z);
      BallInside(E, V, y, |V|);
      ReachTrans(E, V, z, y, x);
      ClassMember(E, V, x, z);
    }
    forall z | z in ClassOf(E, V, x) ensures z in ClassOf(E, V, y) {
      ClassMember(E, V, x, z);
      ReachTrans(E, V, y, x, z);
      ClassInside(E, V, x);
      ReachTrans(E, V, z, x, y);
      ClassMember(E, V, y, z);
    }
  }

  // ---------------------------------------------------------------------------
  // The listed classes partition the nodes visited

  lemma {:induction false} CoveredMember(cs: seq<set<Node>>, x: Node)
    ensures x in Covered(cs) <==> exists i :: 0 <= i < |cs| && x in cs[i]
    decreases |cs|
  {
    if cs != [] {
      var init := cs[..|cs| - 1];
      CoveredMember(init, x);
      if x in Covered(init) {
        var i :| 0 <= i < |init| && x in init[i];
        assert x in cs[i];
      }
    }
  }

  /** Appending the class of a node not yet covered keeps the list a partition. */
  lemma PartitionStep(E: Arcs, V: set<Node>, prev: seq<set<Node>>, n: Node)
    requires Inside(E, V) && n in V && Partition(E, V, prev) && n !in Covered(prev)
    ensures Partition(E, V, prev + [ClassOf(E, V, n)])
  {
    var cs := prev + [ClassOf(E, V, n)];
    ClassOfSelf(E, V, n);
    ClassInside(E, V, n);
    forall i, x | 0 <= i < |cs| && x in cs[i] ensures x in V && cs[i] == ClassOf(E, V, x) {
      if i == |prev| {
        ClassOfSame(E, V, n, x);
      }
    }
    forall i, j | 0 <= i < j < |cs| ensures cs[i] * cs[j] == {} {
      if j == |prev| && cs[i] * cs[j] != {} {
        var z := Pick(cs[i] * cs[j]);
        ClassOfSame(E, V, n, z);
        assert n in prev[i];
        CoveredMember(prev, n);
      }
    }
  }

  /** The classes listed along `order` partition the nodes they cover. */
  lemma {:induction false} ClassesPartition(E: Arcs, V: set<Node>, order: seq<Node>)
    requires Inside(E, V) && forall n :: n in order ==> n in V
    ensures Partition(E, V, ClassesUpTo(E, V, order))
    decreases |order|
  {
    if order != [] {
      var init := order[..|order| - 1];
      var n := order[|order| - 1];
      assert forall m :: m in init ==> m in order;
      ClassesPartition(E, V, init);
      if n !in Covered(ClassesUpTo(E, V, init)) {
        PartitionStep(E, V, ClassesUpTo(E, V, init), n);
      }
    }
  }

  /** Every node of `order` lies in one of the classes listed along it. */
  lemma {:induction false} ClassesCover(E: Arcs, V: set<Node>, order: seq<Node>)
    ensures forall n :: n in order ==> n in Covered(ClassesUpTo(E, V, order))
    decreases |order|
  {
    if order != [] {
      var init := order[..|order| - 1];
      var n := order[|order| - 1];
      var prev := ClassesUpTo(E, V, init);
      var cs := ClassesUpTo(E, V, order);
      ClassesCover(E, V, init);
      assert Covered(prev) <= Covered(cs) && n in Covered(cs) by {
        if n !in Covered(prev) {
          ClassOfSelf(E, V, n);
          assert cs[..|cs| - 1] == prev;
        }
      }
      forall m | m in order ensures m in Covered(cs) {
        if m != n {
          assert m in init;
        }
      }
    }
  }

  /** Every node the classes cover is in V. */
  lemma CoveredInside(E: Arcs, V: set<Node>, cs: seq<set<Node>>)
    requires Partition(E, V, cs)
    ensures Covered(cs) <= V
  {
    forall x | x in Covered(cs) ensures x in V {
      CoveredMember(cs, x);
    }
  }

  /** Disjoint classes: the sizes add up to the number of nodes covered. */
  lemma {:induction false} SizesSum(cs: seq<set<Node>>)
    requires forall i, j :: 0 <= i < j < |cs| ==> cs[i] * cs[j] == {}
    ensures SumI(Sizes(cs)) == |Covered(cs)|
    decreases |cs|
  {
    if cs != [] {
      var init := cs[..|cs| - 1];
      var last := cs[|cs| - 1];
      SizesSum(init);
      assert Sizes(cs)[..|cs| - 1] == Sizes(init);
      forall x | x in Covered(init) ensures x !in last {
        CoveredMember(init, x);
        var i :| 0 <= i < |init| && x in init[i];
        assert init[i] == cs[i];
        assert cs[i] * last == {};
        assert x !in cs[i] * last;
      }
      assert Covered(init) * last == {};
    }
  }

  /** Every class in the list is a class of the whole set, and the list has no repeats. */
  lemma ListedClassesDistinct(E: Arcs, V: set<Node>, cs: seq<set<Node>>)
    requires Partition(E, V, cs)
    ensures Distinct(cs)
    ensures forall c :: c in cs ==> c in ClassSet(E, V)
  {
    forall i, j | 0 <= i < j < |cs| ensures cs[i] != cs[j] {
      var x := Pick(cs[i]);
    }
    forall c | c in cs ensures c in ClassSet(E, V) {
      var i :| 0 <= i < |cs| && cs[i] == c;
      var x := Pick(c);
      assert x in cs[i] && x in V && c == ClassOf(E, V, x);
      assert ClassOf(E, V, x) in ClassSet(E, V);
    }
  }

  /** Listing along an order of all of V gives every class exactly once. */
  lemma ClassesCount(E: Arcs, V: set<Node>, order: seq<Node>)
    requires Inside(E, V) && forall n :: n in V <==> n in order
    ensures |ClassesUpTo(E, V, order)| == |ClassSet(E, V)|
  {
    var cs := ClassesUpTo(E, V, order);
    ClassesPartition(E, V, order);
    ClassesCover(E, V, order);
    ListedClassesDistinct(E, V, cs);
    forall c | c in ClassSet(E, V) ensures c in cs {
      var n :| n in V && c == ClassOf(E, V, n);
      CoveredMember(cs, n);
      var i :| 0 <= i < |cs| && n in cs[i];
    }
    assert (set c | c in cs) == ClassSet(E, V);
    DistinctCard(cs);
  }

  // ---------------------------------------------------------------------------
  // Weak connectivity

  /** Over a symmetric relation a class is simply everything reachable. */
  lemma SymmetricClass(E: Arcs, V: set<Node>, n: Node)
    ensures ClassOf(Symmetric(E), V, n) == Ball(Symmetric(E), n, |V|)
  {
    SymmetricIsReversal(E);
  }
}
