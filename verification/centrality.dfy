/** Centrality rankings: the top-N selection by a stable descending sort of
    a score dictionary, the comparison table built from it, and the
    empty-graph guards around the library's centrality measures.

    A score dictionary is a sequence of (node, score) pairs in the
    dictionary's iteration order. Python's `sorted(..., reverse=True)` is
    stable, and a stable descending sort has exactly one possible result
    (`SortedUnique`), so the insertion sort below gives the same answer as the
    library's merge sort. */
module Centrality {
  import opened Seqs
  import opened Digraph
  import opened TrustGraph

  type Entry = (Node, real)

  /** Scores never increase along the sequence. */
  predicate Descending(s: seq<Entry>)
  {
    forall i, j :: 0 <= i < j < |s| ==> s[i].1 >= s[j].1
  }

  /** The entries with score exactly x, in their order in s. */
  function WithScore(s: seq<Entry>, x: real): seq<Entry>
    decreases |s|
  {
    if s == [] then [] else (if s[0].1 == x then [s[0]] else []) + WithScore(s[1..], x)
  }

  lemma {:induction false} WithScoreAppend(a: seq<Entry>, b: seq<Entry>, x: real)
    ensures WithScore(a + b, x) == WithScore(a, x) + WithScore(b, x)
    decreases |a|
  {
    if a == [] {
      assert a + b == b;
    } else {
      var c := a + b;
      assert c[0] == a[0] && c[1..] == a[1..] + b;
      WithScoreAppend(a[1..], b, x);
      var h := if a[0].1 == x then [a[0]] else [];
      assert WithScore(c, x) == h + WithScore(a[1..] + b, x);
      assert WithScore(a, x) == h + WithScore(a[1..], x);
    }
  }

  /** A descending sequence whose first score is below x holds no entry scoring x. */
  lemma {:induction false} WithScoreBelow(t: seq<Entry>, x: real)
    requires Descending(t) && t != [] && t[0].1 < x
    ensures WithScore(t, x) == []
    decreases |t|
  {
    if |t| > 1 {
      WithScoreBelow(t[1..], x);
    }
  }

  /** Inserts e after every entry that scores at least as high, so that an
      entry inserted later stays behind the earlier ones of equal score. */
  function Insert(t: seq<Entry>, e: Entry): (r: seq<Entry>)
    ensures multiset(r) == multiset(t) + multiset{e}
    ensures |r| == |t| + 1
    decreases |t|
  {
    if t == [] then [e]
    else if t[0].1 >= e.1 then
      assert t == [t[0]] + t[1..];
      [t[0]] + Insert(t[1..], e)
    else [e] + t
  }

  /** Every element of a multiset-extended sequence is old or the new one. */
  lemma InsertMembers(t: seq<Entry>, e: Entry, y: Entry)
    requires y in Insert(t, e)
    ensures y in t || y == e
  {
    assert y in multiset(Insert(t, e));
  }

  lemma {:induction false} InsertDescending(t: seq<Entry>, e: Entry)
    requires Descending(t)
    ensures Descending(Insert(t, e))
    decreases |t|
  {
    if t != [] && t[0].1 >= e.1 {
      var r := Insert(t, e);
      var rest := Insert(t[1..], e);
      InsertDescending(t[1..], e);
      assert r == [t[0]] + rest;
      forall j | 0 < j < |r| ensures t[0].1 >= r[j].1 {
        assert r[j] == rest[j - 1];
        InsertMembers(t[1..], e, rest[j - 1]);
      }
    }
  }

  lemma {:induction false} InsertStable(t: seq<Entry>, e: Entry, x: real)
    requires Descending(t)
    ensures WithScore(Insert(t, e), x) == WithScore(t, x) + (if e.1 == x then [e] else [])
    decreases |t|
  {
    if t != [] {
      var r := Insert(t, e);
      var head := if t[0].1 == x then [t[0]] else [];
      var tail := if e.1 == x then [e] else [];
      if t[0].1 >= e.1 {
        InsertStable(t[1..], e, x);
        assert r[1..] == Insert(t[1..], e);
        calc {
          WithScore(r, x);
          head + WithScore(Insert(t[1..], e), x);
          head + (WithScore(t[1..], x) + tail);
          (head + WithScore(t[1..], x)) + tail;
        }
      } else {
        assert r[1..] == t;
        if e.1 == x {
          WithScoreBelow(t, x);
        }
      }
    }
  }

  /** `sorted(entries, key=score, reverse=True)`. */
  function SortDescending(s: seq<Entry>): (r: seq<Entry>)
    ensures multiset(r) == multiset(s) && |r| == |s|
    decreases |s|
  {
    if s == [] then []
    else
      assert s == s[..|s| - 1] + [s[|s| - 1]];
      Insert(SortDescending(s[..|s| - 1]), s[|s| - 1])
  }

  /** One insertion step of the sort keeps each score's entries in input order. */
  lemma SortStableStep(init: seq<Entry>, last: Entry, x: real)
    requires Descending(SortDescending(init))
    requires WithScore(SortDescending(init), x) == WithScore(init, x)
    ensures WithScore(SortDescending(init + [last]), x) == WithScore(init + [last], x)
  {
    var sorted := SortDescending(init);
    var tail := if last.1 == x then [last] else [];
    assert WithScore(init + [last], x) == WithScore(init, x) + tail by {
      assert [last][1..] == [];
      assert WithScore([last], x) == tail;
      WithScoreAppend(init, [last], x);
    }
    assert WithScore(SortDescending(init + [last]), x) == WithScore(sorted, x) + tail by {
      var s := init + [last];
      assert s[..|s| - 1] == init && s[|s| - 1] == last;
      assert SortDescending(s) == Insert(sorted, last);
      InsertStable(sorted, last, x);
    }
  }

  /** The sort is descending, a permutation, and stable: the entries of any
      one score keep their relative order. */
  lemma {:induction false} SortDescendingCorrect(s: seq<Entry>)
    ensures Descending(SortDescending(s))
    ensures forall x :: WithScore(SortDescending(s), x) == WithScore(s, x)
    decreases |s|
  {
    if s != [] {
      var init := s[..|s| - 1];
      SortDescendingCorrect(init);
      InsertDescending(SortDescending(init), s[|s| - 1]);
      var last := s[|s| - 1];
      assert s == init + [last];
      forall x ensures WithScore(SortDescending(s), x) == WithScore(s, x) {
        SortStableStep(init, last, x);
      }
    }
  }

  lemma LeadScorePresent(s: seq<Entry>)
    requires s != []
    ensures WithScore(s, s[0].1) != []
  {
  }

  /** Grouping by score and reading the groups in descending score order
      recovers any descending sequence, so two descending sequences with the
      same groups are equal: a stable descending sort has a single result. */
  lemma {:induction false} SortedUnique(a: seq<Entry>, b: seq<Entry>)
    requires Descending(a) && Descending(b)
    requires forall x :: WithScore(a, x) == WithScore(b, x)
    ensures a == b
    decreases |a| + |b|
  {
    if a != [] && b != [] {
      var x := a[0].1;
      if b[0].1 != x {
        if b[0].1 < x {
          LeadScorePresent(a);
          WithScoreBelow(b, x);
        } else {
          LeadScorePresent(b);
          WithScoreBelow(a, b[0].1);
        }
      }
      assert b[0].1 == x;
      var wa, wb := WithScore(a, x), WithScore(b, x);
      assert wa == [a[0]] + WithScore(a[1..], x);
      assert wb == [b[0]] + WithScore(b[1..], x);
      assert wa == wb;
      assert a[0] == wa[0] == wb[0] == b[0];
      forall y ensures WithScore(a[1..], y) == WithScore(b[1..], y) {
        assert WithScore(a, y) == WithScore(b, y);
        if y != x {
          assert a[0].1 != y && b[0].1 != y;
          assert WithScore(a[1..], y) == WithScore(a, y);
          assert WithScore(b[1..], y) == WithScore(b, y);
        } else {
          assert wa[1..] == WithScore(a[1..], x);
          assert wb[1..] == WithScore(b[1..], x);
        }
      }
      SortedUnique(a[1..], b[1..]);
      assert a == [a[0]] + a[1..] && b == [b[0]] + b[1..];
    } else if a != [] {
      LeadScorePresent(a);
    } else if b != [] {
      LeadScorePresent(b);
    }
  }

  function Min(a: int, b: int): int
  {
    if a <= b then a else b
  }

  /** `get_top_nodes`: the first n entries of the stable descending sort. */
  function GetTopNodes(d: seq<Entry>, n: nat): (r: seq<Entry>)
    ensures |r| == Min(n, |d|)
    ensures forall e :: e in r ==> e in d
  {
    var sorted := SortDescending(d);
    assert forall e :: e in sorted ==> e in d by {
      forall e | e in sorted ensures e in d {
        assert e in multiset(sorted);
      }
    }
    sorted[..Min(n, |d|)]
  }

  /** The top entries come in non-increasing score order, no omitted entry
      scores above a returned one, and entries of equal score appear in
      their dictionary order. */
  lemma TopNodesCorrect(d: seq<Entry>, n: nat)
    ensures Descending(GetTopNodes(d, n))
    ensures forall e, i :: e in d && e !in GetTopNodes(d, n) && 0 <= i < |GetTopNodes(d, n)| ==>
      e.1 <= GetTopNodes(d, n)[i].1
    ensures forall x :: WithScore(GetTopNodes(d, n), x) <= WithScore(d, x)
  {
    var sorted := SortDescending(d);
    var r := GetTopNodes(d, n);
    var k := Min(n, |d|);
    SortDescendingCorrect(d);
    assert r == sorted[..k];
    forall e, i | e in d && e !in r && 0 <= i < |r| ensures e.1 <= r[i].1 {
      assert e in multiset(d);
      assert e in multiset(sorted);
      var j :| 0 <= j < |sorted| && sorted[j] == e;
      assert j >= k;
    }
    forall x ensures WithScore(r, x) <= WithScore(d, x) {
      assert sorted == r + sorted[k..];
      WithScoreAppend(r, sorted[k..], x);
    }
  }

  // ---------------------------------------------------------------------------
  // Comparison table

  /** `dict.get(node, default)` on a dictionary of scores. */
  function Get(d: seq<Entry>, node: Node, default: real): (v: real)
    ensures (exists i :: 0 <= i < |d| && d[i].0 == node) ==> v in (set i | 0 <= i < |d| && d[i].0 == node :: d[i].1)
    ensures (forall i :: 0 <= i < |d| ==> d[i].0 != node) ==> v == default
    decreases |d|
  {
    if d == [] then default
    else if d[0].0 == node then d[0].1
    else
      var v := Get(d[1..], node, default);
      assert forall i :: 0 <= i < |d[1..]| ==> d[1..][i] == d[i + 1];
      v
  }

  /** One row of the comparison table; the betweenness column is present only
      when a nonempty betweenness dictionary was supplied. */
  datatype Row = Row(rank: nat, node: Node, pageRank: real, degree: real, betweenness: Option<real>)

  /** `compare_centralities`: one row per top-PageRank node, ranked from 1. */
  method CompareCentralities(pageRank: seq<Entry>, degree: seq<Entry>, betweenness: Option<seq<Entry>>, topN: nat)
    returns (rows: seq<Row>)
    ensures |rows| == Min(topN, |pageRank|)
    ensures forall i :: 0 <= i < |rows| ==>
      var top := GetTopNodes(pageRank, topN);
      && rows[i].rank == i + 1
      && rows[i].node == top[i].0 && rows[i].pageRank == top[i].1
      && rows[i].degree == Get(degree, top[i].0, 0.0)
      && (rows[i].betweenness.Some? <==> betweenness.Some? && betweenness.value != [])
      && (rows[i].betweenness.Some? ==> rows[i].betweenness.value == Get(betweenness.value, top[i].0, 0.0))
  {
    var top := GetTopNodes(pageRank, topN);
    rows := [];
    for k := 0 to |top|
      invariant |rows| == k
      invariant forall i :: 0 <= i < k ==>
        && rows[i].rank == i + 1
        && rows[i].node == top[i].0 && rows[i].pageRank == top[i].1
        && rows[i].degree == Get(degree, top[i].0, 0.0)
        && (rows[i].betweenness.Some? <==> betweenness.Some? && betweenness.value != [])
        && (rows[i].betweenness.Some? ==> rows[i].betweenness.value == Get(betweenness.value, top[i].0, 0.0))
    {
      var (node, score) := top[k];
      var b := if betweenness.Some? && betweenness.value != [] then Some(Get(betweenness.value, node, 0.0)) else None;
      rows := rows + [Row(k + 1, node, score, Get(degree, node, 0.0), b)];
    }
  }

  /** The table lists the nodes by non-increasing PageRank. */
  lemma ComparisonRanked(pageRank: seq<Entry>, topN: nat, rows: seq<Row>)
    requires |rows| == Min(topN, |pageRank|)
    requires forall i :: 0 <= i < |rows| ==> rows[i].pageRank == GetTopNodes(pageRank, topN)[i].1
    ensures forall i, j :: 0 <= i < j < |rows| ==> rows[i].pageRank >= rows[j].pageRank
  {
    TopNodesCorrect(pageRank, topN);
  }

  // ---------------------------------------------------------------------------
  // Empty-graph guards

  /** `compute_pagerank` and `compute_betweenness_centrality`: an empty graph
      yields an empty dictionary without consulting the library, whose result
      is passed in as `scores`. */
  function GuardEmpty(g: Graph, scores: seq<Entry>): (r: seq<Entry>)
    ensures |g.nodes| == 0 ==> r == []
    ensures |g.nodes| > 0 ==> r == scores
  {
    if |g.nodes| == 0 then [] else scores
  }

  /** An empty graph gives an empty comparison table. */
  lemma EmptyGraphNoRows(g: Graph, pageRank: seq<Entry>, topN: nat)
    requires |g.nodes| == 0
    ensures GetTopNodes(GuardEmpty(g, pageRank), topN) == []
  {
  }

  /** The part of `analyze_centrality_distribution` kept here: no statistics
      for no scores, otherwise the number of scores. */
  function DistributionSize(scores: seq<real>): (r: Option<nat>)
    ensures r == None <==> scores == []
    ensures r.Some? ==> r.value == |scores| > 0
  {
    if scores == [] then None else Some(|scores|)
  }
}
