/**
  Vocabulary shared by the search in knot.py and its copy in test.py: the
  adjacency matrix, simple paths, closed Hamiltonian tours, and the counting
  facts (a pigeonhole argument) the search relies on.
 */
module Graphs {

  /** A square adjacency matrix: `g[u][v]` says there is an edge from `u` to `v`. */
  predicate IsMatrix(g: seq<seq<bool>>)
  {
    forall u :: 0 <= u < |g| ==> |g[u]| == |g|
  }

  /** Every entry of `s` is a vertex id of an `n`-vertex graph. */
  predicate InRange(s: seq<int>, n: int)
  {
    forall i :: 0 <= i < |s| ==> 0 <= s[i] < n
  }

  /** No vertex occurs twice in `s`. */
  predicate Distinct(s: seq<int>)
  {
    forall i, j :: 0 <= i < j < |s| ==> s[i] != s[j]
  }

  /** Consecutive entries of `s` are joined by an edge of `g`. */
  predicate Linked(g: seq<seq<bool>>, s: seq<int>)
    requires IsMatrix(g) && InRange(s, |g|)
  {
    forall i :: 0 <= i < |s| - 1 ==> g[s[i]][s[i + 1]]
  }

  /** A simple path that begins at `start`: the partial tour the search keeps in `result[0..counter)`. */
  predicate IsSimplePath(g: seq<seq<bool>>, start: int, p: seq<int>)
  {
    IsMatrix(g) && InRange(p, |g|) && Distinct(p) && Linked(g, p) &&
    (|p| > 0 ==> p[0] == start)
  }

  /**
    A closed Hamiltonian tour rooted at `start`, laid out as the search's
    `result` buffer: `n + 1` slots, the first `n` distinct, the last equal to
    the first, consecutive slots adjacent.
   */
  predicate IsHamiltonianCycle(g: seq<seq<bool>>, start: int, r: seq<int>)
  {
    IsMatrix(g) && |r| == |g| + 1 && 0 <= start < |g| &&
    r[0] == start && r[|g|] == start &&
    InRange(r, |g|) && Distinct(r[..|g|]) && Linked(g, r)
  }

  /** Some Hamiltonian tour of `g` is rooted at `start`. */
  ghost predicate HasCycleFrom(g: seq<seq<bool>>, start: int)
  {
    exists r :: IsHamiltonianCycle(g, start, r)
  }

  /** The tour `r` continues the partial path `p` by visiting `node` next. */
  ghost predicate Extends(r: seq<int>, p: seq<int>, node: int)
  {
    |p| < |r| && r[..|p|] == p && r[|p|] == node
  }

  /**
    The start vertices below `k` from which a tour exists, in increasing
    order: the starts whose attempt succeeds when they are tried 0, 1, ...
   */
  ghost function Rooted(g: seq<seq<bool>>, k: nat): seq<int>
  {
    if k == 0 then []
    else Rooted(g, k - 1) + (if HasCycleFrom(g, k - 1) then [k - 1] else [])
  }

  /** The vertex ids `0 .. n-1` as a set. */
  function Vertices(n: nat): (vs: set<int>)
    ensures forall v :: v in vs <==> 0 <= v < n
    ensures |vs| == n
  {
    if n == 0 then {} else Vertices(n - 1) + {n - 1}
  }

  /** A repetition-free sequence drawn from `S` is no longer than `S` is large. */
  lemma {:induction false} DistinctBound(s: seq<int>, S: set<int>)
    requires Distinct(s)
    requires forall i :: 0 <= i < |s| ==> s[i] in S
    ensures |s| <= |S|
  {
    if s != [] {
      var rest := s[1..];
      assert forall i :: 0 <= i < |rest| ==> rest[i] == s[i + 1];
      DistinctBound(rest, S - {s[0]});
    }
  }

  /** Pigeonhole: `n` distinct vertex ids of an `n`-vertex graph name every vertex. */
  lemma Covers(s: seq<int>, n: nat)
    requires |s| == n && InRange(s, n) && Distinct(s)
    ensures forall v :: 0 <= v < n ==> v in s
  {
    forall v | 0 <= v < n
      ensures v in s
    {
      if v !in s {
        DistinctBound(s, Vertices(n) - {v});
      }
    }
  }

  /** A tour visits every vertex of the graph once: `r[0..n)` is a permutation of `0 .. n-1`. */
  lemma CycleVisitsEveryVertex(g: seq<seq<bool>>, start: int, r: seq<int>)
    requires IsHamiltonianCycle(g, start, r)
    ensures forall v :: 0 <= v < |g| ==> v in r[..|g|]
    ensures Distinct(r[..|g|]) && r[0] == r[|g|] == start
  {
    Covers(r[..|g|], |g|);
  }

  /** Vertex `v` has an edge leaving it. */
  predicate HasExit(g: seq<seq<bool>>, v: int)
    requires IsMatrix(g) && 0 <= v < |g|
  {
    exists w :: 0 <= w < |g| && g[v][w]
  }

  /**
    A graph with a tour from any start gives every vertex an outgoing edge
    (the one the tour takes); so a vertex with no outgoing edge rules out a
    tour from every start.
   */
  lemma EveryVertexHasExit(g: seq<seq<bool>>, start: int)
    requires IsMatrix(g) && HasCycleFrom(g, start)
    ensures forall v :: 0 <= v < |g| ==> HasExit(g, v)
  {
    var r :| IsHamiltonianCycle(g, start, r);
    Covers(r[..|g|], |g|);
    forall v | 0 <= v < |g|
      ensures HasExit(g, v)
    {
      assert v in r[..|g|];
      var i :| 0 <= i < |g| && r[..|g|][i] == v;
      var w := r[i + 1];
      assert 0 <= w < |g| && g[v][w];
    }
  }

  /** `Rooted` lists exactly the start vertices below `k` that have a tour, in increasing order. */
  lemma {:induction false} RootedExactly(g: seq<seq<bool>>, k: nat)
    ensures forall s :: s in Rooted(g, k) <==> 0 <= s < k && HasCycleFrom(g, s)
    ensures forall i, j :: 0 <= i < j < |Rooted(g, k)| ==> Rooted(g, k)[i] < Rooted(g, k)[j]
    ensures |Rooted(g, k)| <= k
  {
    if k > 0 {
      var prev := Rooted(g, k - 1);
      RootedExactly(g, k - 1);
      assert forall s :: s in prev ==> s < k - 1;
      assert forall i :: 0 <= i < |prev| ==> prev[i] in prev;
    }
  }
}
