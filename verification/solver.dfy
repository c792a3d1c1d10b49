/**
 * The nearest-neighbour route solver (`solve_tsp_nearest_neighbor`).
 *
 * Index 0 of the cost matrix is the warehouse, indices 1..n the uploaded
 * stops. Costs are whole seconds; the `float('inf')` start value of the
 * running minimum becomes `None`.
 */
module Solver {
  import opened Wrappers

  /** matrix[origin][destination], travel cost in seconds. */
  type Matrix = seq<seq<nat>>

  /** The solver indexes `matrix[current][i]` for every `i < len(matrix)`. */
  predicate IsSquare(m: Matrix) {
    forall r :: 0 <= r < |m| ==> |m[r]| == |m|
  }

  /** What the solver raises: `visited[0] = True` on an empty matrix. */
  datatype SolveError = NoLocations

  predicate Distinct(s: seq<nat>) {
    forall i, j :: 0 <= i < j < |s| ==> s[i] != s[j]
  }

  predicate AllBelow(s: seq<nat>, n: nat) {
    forall i :: 0 <= i < |s| ==> s[i] < n
  }

  /** A visiting order over n locations: each index exactly once. */
  ghost predicate IsPermutation(order: seq<nat>, n: nat) {
    && |order| == n
    && Distinct(order)
    && AllBelow(order, n)
    && forall v :: 0 <= v < n ==> v in order
  }

  /**
   * `j` is what one scan of the solver picks after visiting `prefix`:
   * an unvisited index whose cost from the last visited location is
   * minimal, and strictly smaller than that of every unvisited index
   * before it (the scan replaces its candidate only on a strict `<`).
   */
  ghost predicate IsNearestPick(m: Matrix, prefix: seq<nat>, j: nat) {
    && IsSquare(m)
    && |prefix| > 0
    && prefix[|prefix| - 1] < |m|
    && j < |m|
    && j !in prefix
    && forall k :: 0 <= k < |m| && k !in prefix ==>
         && m[prefix[|prefix| - 1]][j] <= m[prefix[|prefix| - 1]][k]
         && (k < j ==> m[prefix[|prefix| - 1]][j] < m[prefix[|prefix| - 1]][k])
  }

  /** `order` is a prefix of a nearest-neighbour run: it starts at the warehouse and every later entry is the nearest pick. */
  ghost predicate IsNearestNeighborPrefix(m: Matrix, order: seq<nat>) {
    && IsSquare(m)
    && 1 <= |order| <= |m|
    && order[0] == 0
    && forall t :: 1 <= t < |order| ==> IsNearestPick(m, order[..t], order[t])
  }

  /** A complete nearest-neighbour run: every location has been appended. */
  ghost predicate IsNearestNeighborRoute(m: Matrix, order: seq<nat>) {
    IsNearestNeighborPrefix(m, order) && |order| == |m|
  }

  /** Models `solve_tsp_nearest_neighbor`. */
  method SolveNearestNeighbor(m: Matrix) returns (result: Result<seq<nat>, SolveError>)
    requires IsSquare(m)
    ensures result.Failure? <==> |m| == 0
    ensures result.Success? ==> IsNearestNeighborRoute(m, result.value)
  {
    var n := |m|;
    if n == 0 {
      return Failure(NoLocations);
    }
    var visited := new bool[n](_ => false);
    var order: seq<nat> := [0];
    visited[0] := true;
    var current := 0;
    while |order| < n
      invariant IsNearestNeighborPrefix(m, order)
      invariant current == order[|order| - 1]
      invariant forall k :: 0 <= k < n ==> (visited[k] <==> k in order)
      decreases n - |order|
    {
      // Some location is still unvisited, so the scan below finds one.
      PrefixIsDistinct(m, order);
      DistinctBelow(order, n);
      ghost var free :| 0 <= free < n && free !in order;

      var minDistance: Option<nat> := None;
      var next: Option<nat> := None;
      for i := 0 to n
        invariant next.None? <==> minDistance.None?
        invariant next.Some? ==> next.value < i && !visited[next.value] && minDistance.value == m[current][next.value]
        invariant forall k :: 0 <= k < i && !visited[k] ==>
                    && next.Some?
                    && m[current][next.value] <= m[current][k]
                    && (k < next.value ==> m[current][next.value] < m[current][k])
      {
        if !visited[i] && (minDistance.None? || m[current][i] < minDistance.value) {
          minDistance := Some(m[current][i]);
          next := Some(i);
        }
      }
      assert !visited[free];
      var j := next.value;
      assert IsNearestPick(m, order, j);
      visited[j] := true;
      ghost var before := order;
      order := order + [j];
      assert order[..|before|] == before;
      forall t | 1 <= t < |before| ensures IsNearestPick(m, order[..t], order[t]) {
        assert order[..t] == before[..t];
      }
      current := j;
    }
    return Success(order);
  }

  /** The entries of a nearest-neighbour prefix are pairwise different and in range. */
  lemma PrefixIsDistinct(m: Matrix, order: seq<nat>)
    requires IsNearestNeighborPrefix(m, order)
    ensures Distinct(order) && AllBelow(order, |m|)
  {
    forall i, j | 0 <= i < j < |order| ensures order[i] != order[j] {
      assert IsNearestPick(m, order[..j], order[j]);
      assert order[i] == order[..j][i];
    }
    forall i | 0 <= i < |order| ensures order[i] < |m| {
      if i > 0 {
        assert IsNearestPick(m, order[..i], order[i]);
      }
    }
  }

  /**
   * Pigeonhole: distinct indices below n number at most n; fewer than n
   * leave one out, exactly n cover them all.
   */
  lemma {:induction false} DistinctBelow(s: seq<nat>, n: nat)
    requires Distinct(s) && AllBelow(s, n)
    ensures |s| <= n
    ensures |s| < n ==> exists v :: 0 <= v < n && v !in s
    ensures |s| == n ==> forall v :: 0 <= v < n ==> v in s
  {
    if |s| == 0 {
      if n > 0 {
        assert 0 !in s;
      }
    } else {
      assert s[0] < n;
      if n - 1 !in s {
        assert AllBelow(s, n - 1) by {
          forall i | 0 <= i < |s| ensures s[i] < n - 1 {
            assert s[i] != n - 1;
          }
        }
        DistinctBelow(s, n - 1);
        assert n - 1 !in s;
      } else {
        var p :| 0 <= p < |s| && s[p] == n - 1;
        var rest := s[..p] + s[p + 1..];
        DropLargest(s, n, p);
        DistinctBelow(rest, n - 1);
        if |rest| < n - 1 {
          var v :| 0 <= v < n - 1 && v !in rest;
          assert v !in s;
        }
      }
    }
  }

  /** Dropping the entry n - 1 from distinct indices below n leaves distinct indices below n - 1, and nothing else changes. */
  lemma DropLargest(s: seq<nat>, n: nat, p: nat)
    requires Distinct(s) && AllBelow(s, n)
    requires p < |s| && s[p] == n - 1
    ensures |s[..p] + s[p + 1..]| == |s| - 1
    ensures Distinct(s[..p] + s[p + 1..]) && AllBelow(s[..p] + s[p + 1..], n - 1)
    ensures forall v :: v in s[..p] + s[p + 1..] <==> v in s && v != n - 1
  {
    var rest := s[..p] + s[p + 1..];
    assert forall i :: 0 <= i < |rest| ==> rest[i] == (if i < p then s[i] else s[i + 1]);
    forall i | 0 <= i < |rest| ensures rest[i] < n - 1 {
      if i < p {
        assert s[i] != s[p];
      } else {
        assert s[i + 1] != s[p];
      }
    }
    forall v ensures v in rest <==> v in s && v != n - 1 {
      if v in rest {
        var i :| 0 <= i < |rest| && rest[i] == v;
      }
      if v in s && v != n - 1 {
        var i :| 0 <= i < |s| && s[i] == v;
        assert i != p;
        if i < p {
          assert rest[i] == v;
        } else {
          assert rest[i - 1] == v;
        }
      }
    }
  }

  /** Every complete run visits each of the n locations exactly once, warehouse first. */
  lemma NearestNeighborRouteIsPermutation(m: Matrix, order: seq<nat>)
    requires IsNearestNeighborRoute(m, order)
    ensures IsPermutation(order, |m|) && order[0] == 0
  {
    PrefixIsDistinct(m, order);
    DistinctBelow(order, |m|);
  }

  /** Two scans over the same visited prefix settle on the same index: the tie-break makes the pick unique. */
  lemma NearestPickIsUnique(m: Matrix, prefix: seq<nat>, j1: nat, j2: nat)
    requires IsNearestPick(m, prefix, j1) && IsNearestPick(m, prefix, j2)
    ensures j1 == j2
  {
  }

  /** While some location is unvisited, a scan after the visited prefix always settles on an index. */
  lemma NearestPickExists(m: Matrix, prefix: seq<nat>)
    requires IsSquare(m) && |prefix| > 0 && prefix[|prefix| - 1] < |m|
    requires exists v :: 0 <= v < |m| && v !in prefix
    ensures exists j :: IsNearestPick(m, prefix, j)
  {
    var row := m[prefix[|prefix| - 1]];
    var best: Option<nat> := None;
    var i := 0;
    while i < |m|
      invariant 0 <= i <= |m|
      invariant best.Some? ==> best.value < i && best.value !in prefix
      invariant forall k :: 0 <= k < i && k !in prefix ==>
                  && best.Some?
                  && row[best.value] <= row[k]
                  && (k < best.value ==> row[best.value] < row[k])
    {
      if i !in prefix && (best.None? || row[i] < row[best.value]) {
        best := Some(i);
      }
      i := i + 1;
    }
    var v :| 0 <= v < |m| && v !in prefix;
    assert best.Some?;
    assert IsNearestPick(m, prefix, best.value);
  }

  /** The solver is deterministic: a matrix has exactly one nearest-neighbour route. */
  lemma NearestNeighborRouteIsUnique(m: Matrix, o1: seq<nat>, o2: seq<nat>)
    requires IsNearestNeighborRoute(m, o1) && IsNearestNeighborRoute(m, o2)
    ensures o1 == o2
  {
    SamePrefix(m, o1, o2, |m|);
    assert o1 == o1[..|m|] && o2 == o2[..|m|];
  }

  lemma {:induction false} SamePrefix(m: Matrix, o1: seq<nat>, o2: seq<nat>, t: nat)
    requires IsNearestNeighborRoute(m, o1) && IsNearestNeighborRoute(m, o2)
    requires 1 <= t <= |m|
    ensures o1[..t] == o2[..t]
  {
    if t > 1 {
      SamePrefix(m, o1, o2, t - 1);
      NearestPickIsUnique(m, o1[..t - 1], o1[t - 1], o2[t - 1]);
      assert o1[..t] == o1[..t - 1] + [o1[t - 1]];
      assert o2[..t] == o2[..t - 1] + [o2[t - 1]];
    }
  }

  /** The n-by-n matrix of zeros, as `np.zeros((n, n))` builds it. */
  function Zeros(n: nat): (m: Matrix) {
    seq(n, _ => seq(n, _ => 0))
  }

  /** The order 0, 1, ..., n-1. */
  function Identity(n: nat): (order: seq<nat>) {
    seq(n, i => i)
  }

  /**
   * When every cost is equal, every scan keeps its first unvisited
   * candidate, so the route is the input order.
   */
  lemma ZeroMatrixRouteIsIdentity(n: nat, order: seq<nat>)
    requires IsNearestNeighborRoute(Zeros(n), order)
    ensures order == Identity(n)
  {
    ZeroMatrixPrefix(n, order, n);
    assert order == order[..n];
  }

  lemma {:induction false} ZeroMatrixPrefix(n: nat, order: seq<nat>, t: nat)
    requires IsNearestNeighborRoute(Zeros(n), order)
    requires 1 <= t <= n
    ensures order[..t] == Identity(t)
  {
    if t > 1 {
      ZeroMatrixPrefix(n, order, t - 1);
      var prefix := order[..t - 1];
      assert IsNearestPick(Zeros(n), prefix, order[t - 1]);
      // every index below t-1 is already visited, so the pick is at least t-1 ...
      forall v | 0 <= v < t - 1 ensures v in prefix {
        assert prefix[v] == Identity(t - 1)[v];
      }
      // ... and t-1 itself is unvisited, so a later index would have to cost strictly less.
      assert t - 1 !in prefix by {
        forall i | 0 <= i < |prefix| ensures prefix[i] != t - 1 {
          assert prefix[i] == Identity(t - 1)[i];
        }
      }
      assert order[..t] == prefix + [order[t - 1]];
    }
  }
}
