/** Small sequence vocabulary shared by the analysis modules: the Option
    wrapper, duplicate-free sequences, order-preserving selection, and the
    integer sums, minima and maxima behind the averages the analyses report. */
module Seqs {

  datatype Option<+T> = None | Some(value: T)

  /** No element occurs twice (the keys of a dict, the nodes of a graph). */
  predicate Distinct<T(==)>(s: seq<T>)
  {
    forall i, j :: 0 <= i < j < |s| ==> s[i] != s[j]
  }

  /** The set of elements of a sequence. */
  function Elems<T>(s: seq<T>): set<T>
  {
    set x | x in s
  }

  /** Keeps the first occurrence of every element, in order of appearance. */
  function Dedup<T(==,!new)>(s: seq<T>): (r: seq<T>)
    ensures Distinct(r)
    ensures forall x :: x in r <==> x in s
    decreases |s|
  {
    if s == [] then []
    else
      var d := Dedup(s[..|s| - 1]);
      if s[|s| - 1] in d then d else d + [s[|s| - 1]]
  }

  /** The elements of `s` that lie in `keep`, in their order in `s`. */
  function Select<T(==,!new)>(s: seq<T>, keep: set<T>): (r: seq<T>)
    ensures forall x :: x in r <==> x in s && x in keep
    ensures |r| <= |s|
    decreases |s|
  {
    if s == [] then []
    else
      var rest := Select(s[..|s| - 1], keep);
      if s[|s| - 1] in keep then rest + [s[|s| - 1]] else rest
  }

  /** Selecting from one more element of a prefix. */
  lemma SelectSnoc<T(!new)>(s: seq<T>, k: nat, keep: set<T>)
    requires k < |s|
    ensures Select(s[..k + 1], keep) == if s[k] in keep then Select(s[..k], keep) + [s[k]] else Select(s[..k], keep)
  {
    assert s[..k + 1][..k] == s[..k];
  }

  /** Selection keeps order: selecting from a concatenation selects from
      each part and concatenates the results. */
  lemma {:induction false} SelectAppend<T(!new)>(a: seq<T>, b: seq<T>, keep: set<T>)
    ensures Select(a + b, keep) == Select(a, keep) + Select(b, keep)
    decreases |b|
  {
    if b == [] {
      assert a + b == a;
    } else {
      var init := b[..|b| - 1];
      assert (a + b)[..|a + b| - 1] == a + init;
      assert (a + b)[|a + b| - 1] == b[|b| - 1];
      SelectAppend(a, init, keep);
    }
  }

  /** Dedup of a sequence grown by one element: the element is appended
      exactly when it has not appeared before. */
  lemma DedupSnoc<T(!new)>(s: seq<T>, x: T)
    ensures Dedup(s + [x]) == if x in s then Dedup(s) else Dedup(s) + [x]
  {
    assert (s + [x])[..|s|] == s;
  }

  lemma {:induction false} SelectDistinct<T(!new)>(s: seq<T>, keep: set<T>)
    requires Distinct(s)
    ensures Distinct(Select(s, keep))
    decreases |s|
  {
    if s != [] {
      SelectDistinct(s[..|s| - 1], keep);
    }
  }

  /** A duplicate-free sequence has as many elements as the set of its elements. */
  lemma {:induction false} DistinctCard<T>(s: seq<T>)
    requires Distinct(s)
    ensures |set x | x in s| == |s|
    decreases |s|
  {
    if s != [] {
      var init := s[..|s| - 1];
      DistinctCard(init);
      assert (set x | x in s) == (set x | x in init) + {s[|s| - 1]};
      assert s[|s| - 1] !in (set x | x in init);
    }
  }

  /** Some element of a nonempty set. */
  lemma Pick<T>(S: set<T>) returns (x: T)
    requires S != {}
    ensures x in S
  {
    x :| x in S;
  }

  function SumI(s: seq<int>): int
    decreases |s|
  {
    if s == [] then 0 else SumI(s[..|s| - 1]) + s[|s| - 1]
  }

  function MinI(s: seq<int>): (m: int)
    requires s != []
    ensures m in s && forall x :: x in s ==> m <= x
    decreases |s|
  {
    if |s| == 1 then s[0]
    else
      var m := MinI(s[..|s| - 1]);
      assert forall x :: x in s ==> x in s[..|s| - 1] || x == s[|s| - 1];
      if s[|s| - 1] < m then s[|s| - 1] else m
  }

  function MaxI(s: seq<int>): (m: int)
    requires s != []
    ensures m in s && forall x :: x in s ==> x <= m
    decreases |s|
  {
    if |s| == 1 then s[0]
    else
      var m := MaxI(s[..|s| - 1]);
      assert forall x :: x in s ==> x in s[..|s| - 1] || x == s[|s| - 1];
      if s[|s| - 1] > m then s[|s| - 1] else m
  }

  /** The arithmetic mean as Python's `sum(xs) / len(xs)` computes it, with 0 for no values. */
  function Mean(s: seq<int>): real
  {
    if s == [] then 0.0 else SumI(s) as real / |s| as real
  }

  lemma {:induction false} SumAppend(a: seq<int>, b: seq<int>)
    ensures SumI(a + b) == SumI(a) + SumI(b)
    decreases |b|
  {
    if b == [] {
      assert a + b == a;
    } else {
      assert (a + b)[..|a + b| - 1] == a + b[..|b| - 1];
      SumAppend(a, b[..|b| - 1]);
    }
  }

  /** Every element lies between lo and hi, so the sum lies between lo*|s| and hi*|s|. */
  lemma {:induction false} SumBetween(s: seq<int>, lo: int, hi: int)
    requires forall x :: x in s ==> lo <= x <= hi
    ensures lo * |s| <= SumI(s) <= hi * |s|
    decreases |s|
  {
    if s == [] {
      assert lo * |s| == 0 == hi * |s|;
    } else {
      var init := s[..|s| - 1];
      assert forall x :: x in init ==> x in s;
      var n := |init|;
      SumBetween(init, lo, hi);
      assert s[n] in s;
      assert lo * (n + 1) == lo * n + lo && hi * (n + 1) == hi * n + hi;
      assert |s| == n + 1;
    }
  }

  /** Every element lies between lo and hi, so their mean does too. */
  lemma MeanBetween(s: seq<int>, lo: int, hi: int)
    requires s != []
    requires forall x :: x in s ==> lo <= x <= hi
    ensures lo as real <= Mean(s) <= hi as real
  {
    SumBetween(s, lo, hi);
    RatioBetween(lo, SumI(s), hi, |s|);
  }

  /** Cross-multiplication: lo*n <= sum <= hi*n bounds the ratio sum/n. */
  lemma RatioBetween(lo: int, sum: int, hi: int, n: int)
    requires n > 0 && lo * n <= sum <= hi * n
    ensures lo as real <= sum as real / n as real <= hi as real
  {
    var q := sum as real / n as real;
    assert q * n as real == sum as real;
    assert (lo * n) as real == lo as real * n as real;
    assert (hi * n) as real == hi as real * n as real;
  }

  /** The mean lies between the minimum and the maximum. */
  lemma MeanWithinRange(s: seq<int>)
    requires s != []
    ensures MinI(s) as real <= Mean(s) <= MaxI(s) as real
  {
    MeanBetween(s, MinI(s), MaxI(s));
  }

  /** A sum splits at any index. */
  lemma SumSplit(s: seq<int>, k: nat)
    requires k <= |s|
    ensures SumI(s) == SumI(s[..k]) + SumI(s[k..])
  {
    assert s == s[..k] + s[k..];
    SumAppend(s[..k], s[k..]);
  }

  /** Taking one term out of a sum. */
  lemma SumRemove(b: seq<int>, j: nat)
    requires j < |b|
    ensures SumI(b) == SumI(b[..j] + b[j + 1..]) + b[j]
  {
    var x, p, q := b[j], b[..j], b[j + 1..];
    var head := b[..j + 1];
    assert SumI(head) == SumI(p) + x by {
      assert head[..j] == p;
    }
    SumSplit(b, j + 1);
    SumAppend(p, q);
  }

  /** Taking one element out of a sequence takes it out of its multiset. */
  lemma MultisetRemove<T>(b: seq<T>, j: nat)
    requires j < |b|
    ensures multiset(b[..j] + b[j + 1..]) == multiset(b) - multiset{b[j]}
  {
    assert b == b[..j] + [b[j]] + b[j + 1..];
    assert multiset(b) == multiset(b[..j] + b[j + 1..]) + multiset{b[j]};
  }

  /** A sum does not depend on the order of its terms. */
  lemma {:induction false} SumPermutation(a: seq<int>, b: seq<int>)
    requires multiset(a) == multiset(b)
    ensures SumI(a) == SumI(b)
    decreases |a|
  {
    if a == [] {
      assert |b| == |multiset(b)| == 0;
    } else {
      var i := |a| - 1;
      var x := a[i];
      var init := a[..i];
      assert x in multiset(b) by {
        assert x in a;
      }
      var j :| 0 <= j < |b| && b[j] == x;
      var rest := b[..j] + b[j + 1..];
      assert multiset(init) == multiset(rest) by {
        MultisetRemove(a, i);
        assert a[..i] + a[i + 1..] == init;
        MultisetRemove(b, j);
      }
      SumPermutation(init, rest);
      SumRemove(b, j);
    }
  }

  // ---------------------------------------------------------------------------
  // Size histograms

  /** A list of zeros sums to zero. */
  lemma {:induction false} SumZero(s: seq<int>)
    requires forall i :: 0 <= i < |s| ==> s[i] == 0
    ensures SumI(s) == 0
    decreases |s|
  {
    if s != [] {
      SumZero(s[..|s| - 1]);
    }
  }

  /** Raising one entry by 1 raises the sum by 1. */
  lemma {:induction false} SumBump(s: seq<int>, j: nat)
    requires j < |s|
    ensures SumI(s[j := s[j] + 1]) == SumI(s) + 1
    decreases |s|
  {
    var t := s[j := s[j] + 1];
    if j < |s| - 1 {
      assert t[..|t| - 1] == s[..|s| - 1][j := s[j] + 1];
      SumBump(s[..|s| - 1], j);
    } else {
      assert t[..|t| - 1] == s[..|s| - 1];
    }
  }

  /** Permutations hold the same elements. */
  lemma SameElements<T>(a: seq<T>, b: seq<T>)
    requires multiset(a) == multiset(b)
    ensures forall x :: x in a <==> x in b
  {
    forall x ensures x in a <==> x in b {
      assert x in a <==> x in multiset(a);
      assert x in b <==> x in multiset(b);
    }
  }

  /** How many elements lie in lo..hi: `sum(1 for s in sizes if lo <= s <= hi)`. */
  function CountBetween(s: seq<int>, lo: int, hi: int): nat
    decreases |s|
  {
    if s == [] then 0
    else CountBetween(s[..|s| - 1], lo, hi) + (if lo <= s[|s| - 1] <= hi then 1 else 0)
  }

  /** How many elements exceed lo: `sum(1 for s in sizes if s > lo)`. */
  function CountAbove(s: seq<int>, lo: int): nat
    decreases |s|
  {
    if s == [] then 0
    else CountAbove(s[..|s| - 1], lo) + (if s[|s| - 1] > lo then 1 else 0)
  }

  /** Some element lies in lo..hi exactly when the count is positive. */
  lemma {:induction false} CountBetweenPositive(s: seq<int>, lo: int, hi: int)
    ensures CountBetween(s, lo, hi) > 0 <==> exists x :: x in s && lo <= x <= hi
    decreases |s|
  {
    if s != [] {
      var init := s[..|s| - 1];
      var last := s[|s| - 1];
      CountBetweenPositive(init, lo, hi);
      assert forall x :: x in s <==> x in init || x == last;
      if exists x :: x in s && lo <= x <= hi {
        var x :| x in s && lo <= x <= hi;
        if x != last {
          assert x in init;
        }
      }
      if lo <= last <= hi {
        assert last in s;
      }
      if CountBetween(s, lo, hi) > 0 && !(lo <= last <= hi) {
        var x :| x in init && lo <= x <= hi;
        assert x in s;
      }
    }
  }

  /** With every size at least 1, the buckets 1, 2..a, a+1..b and above b
      count every element exactly once. */
  lemma {:induction false} BucketsCover(s: seq<int>, a: int, b: int)
    requires 2 <= a < b
    requires forall x :: x in s ==> x >= 1
    ensures CountBetween(s, 1, 1) + CountBetween(s, 2, a) + CountBetween(s, a + 1, b) + CountAbove(s, b) == |s|
    decreases |s|
  {
    if s != [] {
      var init := s[..|s| - 1];
      assert forall x :: x in init ==> x in s;
      BucketsCover(init, a, b);
      assert s[|s| - 1] in s;
    }
  }
}
