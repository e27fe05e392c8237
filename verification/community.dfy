/** Communities of the trust graph. The partition itself comes from the
    Louvain method and is an input here; the model covers what is done with
    it: counting the community sizes, listing a community's members, flagging
    small communities cut off from the main body of the network, the size
    statistics, and counting the edges that cross between communities. */
module Community {
  import opened Seqs
  import opened Digraph
  import opened Traversal
  import opened TrustGraph
  import opened Components

  /** The partition: each node with its community id, in dict order. */
  type Membership = seq<(Node, int)>

  /** Community ids with their sizes, in order of first appearance. */
  type Counter = seq<(int, int)>

  /** The values of a dictionary held as pairs, in dictionary order: the
      community ids of a partition, or the sizes of a counter. */
  function Values(p: seq<(int, int)>): (r: seq<int>)
    ensures |r| == |p| && forall i :: 0 <= i < |p| ==> r[i] == p[i].1
  {
    seq(|p|, i requires 0 <= i < |p| => p[i].1)
  }


  /** `partition.get(n)`: the community of n, if it has one. */
  function Lookup(p: Membership, n: Node): (r: Option<int>)
    ensures r.Some? <==> exists i :: 0 <= i < |p| && p[i].0 == n
    ensures r.Some? ==> (n, r.value) in p
    decreases |p|
  {
    if p == [] then None
    else if p[0].0 == n then Some(p[0].1)
    else
      var r := Lookup(p[1..], n);
      assert forall i :: 0 < i < |p| ==> p[i] == p[1..][i - 1];
      assert r.Some? ==> exists i :: 0 <= i < |p| && p[i].0 == n by {
        if r.Some? {
          var i :| 0 <= i < |p[1..]| && p[1..][i].0 == n;
          assert p[i + 1].0 == n;
        }
      }
      r
  }

  // ---------------------------------------------------------------------------
  // Counting the community sizes

  /** How many entries of the partition carry each id, ids listed in order
      of first appearance: `Counter(partition.values())`. */
  function CountValues(values: seq<int>): (r: Counter)
    ensures forall i, j :: 0 <= i < j < |r| ==> r[i].0 != r[j].0
    ensures forall c :: c in values <==> exists i :: 0 <= i < |r| && r[i].0 == c
    ensures forall i :: 0 <= i < |r| ==> r[i].1 == multiset(values)[r[i].0] >= 1
    ensures |r| == |Dedup(values)| && forall i :: 0 <= i < |r| ==> r[i].0 == Dedup(values)[i]
  {
    var ids := Dedup(values);
    var r := seq(|ids|, i requires 0 <= i < |ids| => (ids[i], multiset(values)[ids[i]]));
    assert forall c :: c in values <==> exists i :: 0 <= i < |r| && r[i].0 == c by {
      forall c ensures c in values <==> exists i :: 0 <= i < |r| && r[i].0 == c {
        if c in values {
          assert c in ids;
          var i :| 0 <= i < |ids| && ids[i] == c;
          assert r[i].0 == c;
        }
      }
    }
    assert forall i :: 0 <= i < |r| ==> multiset(values)[r[i].0] >= 1 by {
      forall i | 0 <= i < |r| ensures multiset(values)[r[i].0] >= 1 {
        assert ids[i] in values;
        assert ids[i] in multiset(values);
      }
    }
    r
  }

  /** The multiplicity of each id among the values, listed along `ids`. */
  function Tally(values: seq<int>, ids: seq<int>): (r: seq<int>)
    ensures |r| == |ids|
  {
    seq(|ids|, i requires 0 <= i < |ids| => multiset(values)[ids[i]])
  }

  /** Over distinct ids that cover the values, the multiplicities add up to
      the number of values. */
  lemma {:induction false} TallySum(values: seq<int>, ids: seq<int>)
    requires Distinct(ids) && forall x :: x in values ==> x in ids
    ensures SumI(Tally(values, ids)) == |values|
    decreases |values|
  {
    if values == [] {
      SumZero(Tally(values, ids));
    } else {
      var init := values[..|values| - 1];
      var x := values[|values| - 1];
      assert values == init + [x];
      TallySum(init, ids);
      assert x in values && x in ids;
      var j :| 0 <= j < |ids| && ids[j] == x;
      var before := Tally(init, ids);
      assert Tally(values, ids) == before[j := before[j] + 1] by {
        forall i | 0 <= i < |ids| ensures Tally(values, ids)[i] == before[j := before[j] + 1][i] {
          assert multiset(values) == multiset(init) + multiset{x};
        }
      }
      SumBump(before, j);
    }
  }

  /** The community sizes add up to the number of nodes in the partition. */
  lemma CountsTotal(values: seq<int>)
    ensures SumI(Values(CountValues(values))) == |values|
  {
    var ids := Dedup(values);
    assert Values(CountValues(values)) == Tally(values, ids);
    TallySum(values, ids);
  }

  /** `detect_communities` given the partition the Louvain method produced:
      nothing for an empty graph, else the partition and its size count. */
  function DetectCommunities(g: Graph, partition: Membership): (r: (Membership, Counter))
    ensures g.nodes == [] ==> r == ([], [])
    ensures g.nodes != [] ==> r.0 == partition
    ensures g.nodes != [] ==> forall i :: 0 <= i < |r.1| ==> r.1[i].1 == |Members(partition, r.1[i].0)|
    ensures g.nodes != [] ==> forall c :: c in Values(partition) <==> exists i :: 0 <= i < |r.1| && r.1[i].0 == c
    ensures g.nodes != [] ==> forall i, j :: 0 <= i < j < |r.1| ==> r.1[i].0 != r.1[j].0
    ensures g.nodes != [] ==> |r.1| == |Dedup(Values(partition))|
    ensures g.nodes != [] ==> forall i :: 0 <= i < |r.1| ==> r.1[i].0 == Dedup(Values(partition))[i]
  {
    if |g.nodes| == 0 then ([], [])
    else
      var sizes := CountValues(Values(partition));
      assert sizes == CountValues(Values(partition));
      assert forall i :: 0 <= i < |sizes| ==> sizes[i].1 == |Members(partition, sizes[i].0)| by {
        forall i | 0 <= i < |sizes| ensures sizes[i].1 == |Members(partition, sizes[i].0)| {
          MembersCount(partition, sizes[i].0);
        }
      }
      (partition, sizes)
  }

  // ---------------------------------------------------------------------------
  // Members

  /** `get_community_members`: the nodes the partition puts in community
      `id`, in partition order. */
  function Members(p: Membership, id: int): (r: seq<Node>)
    ensures forall x :: x in r <==> (x, id) in p
    ensures |r| <= |p|
    decreases |p|
  {
    if p == [] then []
    else
      var prev := Members(p[..|p| - 1], id);
      assert forall e :: e in p <==> e in p[..|p| - 1] || e == p[|p| - 1];
      if p[|p| - 1].1 == id then prev + [p[|p| - 1].0] else prev
  }

  /** Members come in partition order: the members drawn from a concatenation
      are those of the first part followed by those of the second. */
  lemma {:induction false} MembersAppend(a: Membership, b: Membership, id: int)
    ensures Members(a + b, id) == Members(a, id) + Members(b, id)
    decreases |b|
  {
    if b == [] {
      assert a + b == a;
    } else {
      var init := b[..|b| - 1];
      assert (a + b)[..|a + b| - 1] == a + init;
      assert (a + b)[|a + b| - 1] == b[|b| - 1];
      MembersAppend(a, init, id);
    }
  }

  /** A single entry contributes its node exactly when its id matches. */
  lemma MembersSingle(n: Node, c: int, id: int)
    ensures Members([(n, c)], id) == if c == id then [n] else []
  {
    assert [(n, c)][..0] == [];
  }

  /** A community has as many members as the partition has entries with its id. */
  lemma {:induction false} MembersCount(p: Membership, id: int)
    ensures |Members(p, id)| == multiset(Values(p))[id]
    decreases |p|
  {
    if p != [] {
      var init := p[..|p| - 1];
      MembersCount(init, id);
      assert Values(p) == Values(init) + [p[|p| - 1].1];
    }
  }

  /** The first k entries, or all of them when there are fewer. */
  function Take(s: seq<Node>, k: nat): (r: seq<Node>)
    ensures |r| <= k && r <= s
    ensures |s| <= k ==> r == s
  {
    if |s| <= k then s else s[..k]
  }

  // ---------------------------------------------------------------------------
  // Suspicious communities

  datatype Suspicious = Suspicious(id: int, size: int, users: seq<Node>)

  /** The neighbours of u in the undirected projection. */
  function Neighbours(g: Graph, u: Node): set<Node>
  {
    Succ(Symmetric(EdgeSet(g)), {u})
  }

  /** Some user that is a node of the graph has a neighbour in `main`. */
  ghost predicate TouchesMain(g: Graph, users: seq<Node>, main: set<Node>)
  {
    exists u :: u in users && u in NodeSet(g) && Neighbours(g, u) * main != {}
  }

  /** The inner loop: counts at most one user that is a node of the graph
      with a neighbour in `main`, stopping at the first. */
  method ConnectionsToMain(g: Graph, users: seq<Node>, main: set<Node>) returns (connections: nat)
    ensures connections <= 1
    ensures connections == 0 <==> !TouchesMain(g, users, main)
  {
    connections := 0;
    var k := 0;
    while k < |users|
      invariant 0 <= k <= |users|
      invariant forall j :: 0 <= j < k && users[j] in NodeSet(g) ==> Neighbours(g, users[j]) * main == {}
    {
      var user := users[k];
      if user in g.nodes {
        var neighbors := Neighbours(g, user);
        if neighbors * main != {} {
          connections := connections + 1;
          break;
        }
      }
      k := k + 1;
    }
  }

  /** The communities flagged by the heuristic, in counter order: those
      smaller than `maxSize` of which no member touches `main`. */
  ghost function Flagged(g: Graph, p: Membership, sizes: Counter, maxSize: int, main: set<Node>): seq<Suspicious>
    decreases |sizes|
  {
    if sizes == [] then []
    else
      var prev := Flagged(g, p, sizes[..|sizes| - 1], maxSize, main);
      var id := sizes[|sizes| - 1].0;
      var size := sizes[|sizes| - 1].1;
      if size < maxSize && !TouchesMain(g, Members(p, id), main)
      then prev + [Suspicious(id, size, Take(Members(p, id), 10))]
      else prev
  }

  /** An entry is flagged exactly when its community is in the counter,
      smaller than `maxSize`, and none of its members touches `main`; it
      then lists the first 10 members. */
  lemma {:induction false} FlaggedExactly(g: Graph, p: Membership, sizes: Counter, maxSize: int, main: set<Node>, e: Suspicious)
    ensures e in Flagged(g, p, sizes, maxSize, main) <==>
              && (e.id, e.size) in sizes
              && e.size < maxSize
              && !TouchesMain(g, Members(p, e.id), main)
              && e.users == Take(Members(p, e.id), 10)
    decreases |sizes|
  {
    if sizes != [] {
      var init := sizes[..|sizes| - 1];
      FlaggedExactly(g, p, init, maxSize, main, e);
      assert forall x :: x in sizes <==> x in init || x == sizes[|sizes| - 1];
    }
  }

  /** `find_suspicious_communities`: nothing for an empty graph; otherwise
      the communities of the counter, in order, that are smaller than
      `maxSize` and have no member adjacent to the largest connected
      component of the undirected projection. */
  method FindSuspiciousCommunities(g: Graph, partition: Membership, sizes: Counter, maxSize: int)
    returns (suspicious: seq<Suspicious>)
    ensures g.nodes == [] ==> suspicious == []
    ensures g.nodes != [] ==> suspicious == Flagged(g, partition, sizes, maxSize, FirstLargest(Wcc(g)))
  {
    if |g.nodes| == 0 {
      return [];
    }
    var components := WeaklyConnectedComponents(EdgeSet(g), g.nodes);
    var main := FirstLargest(components);
    suspicious := [];
    for i := 0 to |sizes|
      invariant suspicious == Flagged(g, partition, sizes[..i], maxSize, main)
    {
      assert sizes[..i + 1][..i] == sizes[..i];
      var id := sizes[i].0;
      var size := sizes[i].1;
      if size < maxSize {
        var users := Members(partition, id);
        var connections := ConnectionsToMain(g, users, main);
        if connections == 0 {
          suspicious := suspicious + [Suspicious(id, size, Take(users, 10))];
        }
      }
    }
    assert sizes[..|sizes|] == sizes;
  }

  // ---------------------------------------------------------------------------
  // Size statistics

  datatype CommunityStats = CommunityStats(
    totalCommunities: nat,
    largest: int,
    smallest: int,
    average: real,
    totalNodes: int,
    distribution: Option<Distribution>)

  /** `analyze_community_structure`: zeros for no communities; otherwise the
      count, the largest, smallest and mean size, the total, and the
      histogram 1, 2-10, 11-50, over 50. */
  function AnalyzeCommunityStructure(counter: Counter): (s: CommunityStats)
    ensures s.totalCommunities == |counter|
    ensures counter == [] ==> s == CommunityStats(0, 0, 0, 0.0, 0, None)
    ensures counter != [] ==> s.distribution == Some(Histogram(Values(counter), 50))
  {
    if counter == [] then CommunityStats(0, 0, 0, 0.0, 0, None)
    else
      var sizes := Values(counter);
      CommunityStats(|counter|, MaxI(sizes), MinI(sizes), Mean(sizes), SumI(sizes), Some(Histogram(sizes, 50)))
  }

  /** The statistics are consistent: the smallest and largest are sizes that
      occur and bound every size and the mean, and with positive sizes every
      community falls in exactly one bucket. */
  lemma CommunityStatsConsistent(counter: Counter)
    requires counter != []
    ensures var s := AnalyzeCommunityStructure(counter);
            && (exists i :: 0 <= i < |counter| && counter[i].1 == s.largest)
            && (exists i :: 0 <= i < |counter| && counter[i].1 == s.smallest)
            && (forall i :: 0 <= i < |counter| ==> s.smallest <= counter[i].1 <= s.largest)
            && s.smallest as real <= s.average <= s.largest as real
            && s.totalNodes == SumI(Values(counter))
            && ((forall i :: 0 <= i < |counter| ==> counter[i].1 >= 1) ==> Total(s.distribution.value) == s.totalCommunities)
  {
    var sizes := Values(counter);
    MeanWithinRange(sizes);
    assert forall i :: 0 <= i < |counter| ==> sizes[i] in sizes;
    if forall i :: 0 <= i < |counter| ==> counter[i].1 >= 1 {
      HistogramTotal(sizes, 50);
    }
  }

  /** For the sizes counted from a partition, the total is the number of
      partition entries and every community falls in exactly one bucket. */
  lemma DetectedStructure(g: Graph, partition: Membership)
    requires g.nodes != [] && partition != []
    ensures var s := AnalyzeCommunityStructure(DetectCommunities(g, partition).1);
            && s.totalNodes == |partition|
            && Total(s.distribution.value) == s.totalCommunities
  {
    var counter := DetectCommunities(g, partition).1;
    CountsTotal(Values(partition));
    assert partition[0].1 in Values(partition);
    CommunityStatsConsistent(counter);
  }

  // ---------------------------------------------------------------------------
  // Edges between communities

  /** The edges of S whose ends the partition labels differently (a node
      without a label counts as labelled None). */
  function Crossing(p: Membership, S: set<(Node, Node)>): set<(Node, Node)>
  {
    set e | e in S && Lookup(p, e.0) != Lookup(p, e.1)
  }

  /** `get_intercommunity_edges`: counts, edge by edge, the edges whose ends
      lie in different communities. */
  method GetIntercommunityEdges(g: Graph, partition: Membership) returns (interEdges: nat)
    ensures interEdges == |Crossing(partition, EdgeSet(g))|
  {
    interEdges := 0;
    var todo := EdgeSet(g);
    while todo != {}
      invariant todo <= EdgeSet(g)
      invariant interEdges == |Crossing(partition, EdgeSet(g) - todo)|
      decreases |todo|
    {
      var e :| e in todo;
      var done := EdgeSet(g) - todo;
      if Lookup(partition, e.0) != Lookup(partition, e.1) {
        interEdges := interEdges + 1;
        assert Crossing(partition, done + {e}) == Crossing(partition, done) + {e};
      } else {
        assert Crossing(partition, done + {e}) == Crossing(partition, done);
      }
      assert EdgeSet(g) - (todo - {e}) == done + {e};
      todo := todo - {e};
    }
    assert EdgeSet(g) - todo == EdgeSet(g);
  }

  /** The count is at most the number of edges; it is 0 exactly when every
      edge joins two nodes with the same label, in particular when every
      node of a graph carries the same community id. */
  lemma IntercommunityBounds(g: Graph, partition: Membership, c: int)
    ensures |Crossing(partition, EdgeSet(g))| <= |EdgeSet(g)|
    ensures |Crossing(partition, EdgeSet(g))| == 0 <==>
              forall e :: e in EdgeSet(g) ==> Lookup(partition, e.0) == Lookup(partition, e.1)
    ensures Valid(g) && (forall n :: n in NodeSet(g) ==> Lookup(partition, n) == Some(c)) ==>
              |Crossing(partition, EdgeSet(g))| == 0
  {
    var X := Crossing(partition, EdgeSet(g));
    assert EdgeSet(g) == X + (EdgeSet(g) - X);
    if X != {} {
      var e := Pick(X);
    }
  }
}
