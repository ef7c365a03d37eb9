/**
  The Hamiltonian-cycle search of knot.py: `make_adjacency` builds the 0/1
  matrix from the mesh's edge list, `find_solution` is the recursive
  backtracking search over the shared `visited` and `result` buffers,
  `set_default` clears `visited`, and `hamiltonian_cycle_single` tries the
  start vertices in turn. The script's module-level `CYCLES` list, where every
  success leaves a copy of `result`, is the field `cycles` of `CycleSearch`.
  A matrix entry 1 is `true` here and 0 is `false`.
 */
module Knot {
  import opened Graphs

  /** Clears `visited[0..n)`; later entries are left alone, and a negative `n` clears nothing. */
  method SetDefault(visited: array<bool>, n: int)
    requires n <= visited.Length
    modifies visited
    ensures forall v :: 0 <= v < n ==> !visited[v]
    ensures forall v :: 0 <= v < visited.Length && n <= v ==> visited[v] == old(visited[v])
  {
    var i := 0;
    while i < n
      invariant 0 <= i <= visited.Length && (n < 0 ==> i == 0) && (0 <= n ==> i <= n)
      invariant forall v :: 0 <= v < i ==> !visited[v]
      invariant forall v :: i <= v < visited.Length ==> visited[v] == old(visited[v])
    {
      visited[i] := false;
      i := i + 1;
    }
  }

  /** The vertex ids the edge list mentions, at either end of a pair. */
  function Ids(edges: seq<(int, int)>): set<int>
  {
    if edges == [] then {} else {edges[0].0, edges[0].1} + Ids(edges[1..])
  }

  /** Vertex `x` is an end of some listed pair. */
  predicate Mentions(edges: seq<(int, int)>, x: int)
  {
    exists e :: e in edges && (e.0 == x || e.1 == x)
  }

  lemma MentionedAt(edges: seq<(int, int)>, i: int)
    requires 0 <= i < |edges|
    ensures Mentions(edges, edges[i].0) && Mentions(edges, edges[i].1)
  {
    assert edges[i] in edges;
  }

  lemma MentionsPrefix(a: seq<(int, int)>, b: seq<(int, int)>, x: int)
    requires Mentions(a, x)
    ensures Mentions(a + b, x)
  {
    var e :| e in a && (e.0 == x || e.1 == x);
    assert e in a + b;
  }

  lemma {:induction false} IdsMembers(edges: seq<(int, int)>)
    ensures forall x :: x in Ids(edges) <==> Mentions(edges, x)
  {
    if edges != [] {
      IdsMembers(edges[1..]);
      assert forall e :: e in edges <==> e == edges[0] || e in edges[1..];
    }
  }

  /**
    The numbering `make_adjacency` assumes: every id is below the number of
    distinct ids, so the ids are exactly `0 .. size-1`.
   */
  predicate DenseIds(edges: seq<(int, int)>)
  {
    forall e :: e in edges ==> 0 <= e.0 < |Ids(edges)| && 0 <= e.1 < |Ids(edges)|
  }

  /** `m` is the matrix of the listed pairs: entry `[a][b]` set exactly when `(a, b)` is listed. */
  ghost predicate Represents(m: seq<seq<bool>>, edges: seq<(int, int)>)
  {
    IsMatrix(m) && |m| == |Ids(edges)| &&
    forall a, b :: 0 <= a < |m| && 0 <= b < |m| ==> (m[a][b] <==> (a, b) in edges)
  }

  /** Matrix `g` has an edge back for every edge forward. */
  predicate Symmetric(g: seq<seq<bool>>)
    requires IsMatrix(g)
  {
    forall a, b :: 0 <= a < |g| && 0 <= b < |g| && g[a][b] ==> g[b][a]
  }

  /**
    Builds the `size x size` matrix, `size` the number of distinct ids, with
    one entry set per listed pair, in the listed direction only.
   */
  method MakeAdjacency(edges: seq<(int, int)>) returns (adjacency: seq<seq<bool>>)
    requires DenseIds(edges)
    ensures Represents(adjacency, edges)
  {
    var size := |Ids(edges)|;
    adjacency := seq(size, _ => seq(size, _ => false));
    for k := 0 to |edges|
      invariant IsMatrix(adjacency) && |adjacency| == size
      invariant forall a, b :: 0 <= a < size && 0 <= b < size ==>
                  (adjacency[a][b] <==> (a, b) in edges[..k])
    {
      var sink, source := edges[k].0, edges[k].1;
      assert edges[k] in edges;
      ghost var before := adjacency;
      adjacency := adjacency[sink := adjacency[sink][source := true]];
      assert edges[..k + 1] == edges[..k] + [edges[k]];
      forall a, b | 0 <= a < size && 0 <= b < size
        ensures adjacency[a][b] <==> (a, b) in edges[..k + 1]
      {
        assert adjacency[a][b] == (before[a][b] || (a, b) == (sink, source));
      }
    }
    assert edges[..|edges|] == edges;
  }

  /** The ids of a well-numbered edge list are exactly `0 .. size-1`. */
  lemma DenseIdsAreVertices(edges: seq<(int, int)>)
    requires DenseIds(edges)
    ensures Ids(edges) == Vertices(|Ids(edges)|)
  {
    var ids, all := Ids(edges), Vertices(|Ids(edges)|);
    IdsMembers(edges);
    assert ids <= all;
    var missing := all - ids;
    assert all == ids + missing;
    assert |all| == |ids| + |missing|;
    assert missing == {};
  }

  /** Both ends of pair `e` are below `k`. */
  predicate IdsBelow(e: (int, int), k: int)
  {
    0 <= e.0 < k && 0 <= e.1 < k
  }

  /** An edge list whose pairs stay below `k` and name every id below `k` has ids exactly `0 .. k-1`. */
  lemma IdsAreExactly(edges: seq<(int, int)>, k: nat)
    requires forall e :: e in edges ==> IdsBelow(e, k)
    requires forall v :: 0 <= v < k ==> Mentions(edges, v)
    ensures Ids(edges) == Vertices(k) && |Ids(edges)| == k && DenseIds(edges)
  {
    IdsMembers(edges);
    forall x
      ensures x in Ids(edges) <==> x in Vertices(k)
    {
      if Mentions(edges, x) {
        var e :| e in edges && (e.0 == x || e.1 == x);
        assert IdsBelow(e, k);
      }
    }
    assert Ids(edges) == Vertices(k);
  }

  /** Two matrices of the same edge list are identical: building twice gives the same matrix. */
  lemma RepresentsUnique(m1: seq<seq<bool>>, m2: seq<seq<bool>>, edges: seq<(int, int)>)
    requires Represents(m1, edges) && Represents(m2, edges)
    ensures m1 == m2
  {
    forall a | 0 <= a < |m1|
      ensures m1[a] == m2[a]
    {
      assert forall b :: 0 <= b < |m1| ==> m1[a][b] == m2[a][b];
    }
  }

  /**
    The matrix is symmetric exactly when every listed pair is listed in the
    other direction too: one listed pair alone makes a one-way edge.
   */
  lemma SymmetricIffBothDirections(m: seq<seq<bool>>, edges: seq<(int, int)>)
    requires DenseIds(edges) && Represents(m, edges)
    ensures Symmetric(m) <==> forall e :: e in edges ==> (e.1, e.0) in edges
  {
    if Symmetric(m) {
      forall e | e in edges
        ensures (e.1, e.0) in edges
      {
        assert m[e.0][e.1];
      }
    }
    if forall e :: e in edges ==> (e.1, e.0) in edges {
      forall a, b | 0 <= a < |m| && 0 <= b < |m| && m[a][b]
        ensures m[b][a]
      {
        assert (a, b) in edges;
      }
    }
  }

  /**
    The state of knot.py that outlives one search: `cycles` is the `CYCLES`
    list, one snapshot of `result` per successful search, in the order found.
   */
  class CycleSearch {
    var cycles: seq<seq<int>>

    constructor ()
      ensures cycles == []
    {
      cycles := [];
    }

    /**
      One step of the backtracking search: `result[0..counter)` holds the path
      so far, a simple path from `start` whose vertices are exactly the
      `visited` ones, and `node` is the vertex to place next.
      On success `result` holds a closed Hamiltonian tour from `start`, a copy
      of it is appended to `cycles`, and every vertex is left visited.
      On failure `visited` and `cycles` are as they were, and no tour from
      `start` continues the path with `node`.
     */
    method FindSolution(graph: seq<seq<bool>>, visited: array<bool>, result: array<int>,
                        node: int, counter: int, n: int, start: int) returns (found: bool)
      requires IsMatrix(graph) && n == |graph|
      requires visited.Length == n && result.Length == n + 1
      requires 0 <= start < n && 0 <= node < n && 0 <= counter <= n
      requires IsSimplePath(graph, start, result[..counter])
      requires counter == 0 ==> node == start
      requires counter > 0 ==> graph[result[counter - 1]][node]
      requires forall v :: 0 <= v < n ==> (visited[v] <==> v in result[..counter])
      modifies this, visited, result
      decreases n - counter
      ensures result[..counter] == old(result[..counter])
      ensures found ==> IsHamiltonianCycle(graph, start, result[..])
      ensures found ==> cycles == old(cycles) + [result[..]]
      ensures found ==> forall v :: 0 <= v < n ==> visited[v]
      ensures !found ==> visited[..] == old(visited[..]) && cycles == old(cycles)
      ensures !found ==> forall r :: IsHamiltonianCycle(graph, start, r) ==> !Extends(r, result[..counter], node)
    {
      if counter == n && node == start {
        result[counter] := node;
        assert result[..counter] == old(result[..counter]);
        ClosingTheTour(graph, start, result[..]);
        cycles := cycles + [result[..]];
        Covers(result[..n], n);
        return true;
      }
      if counter == n {
        // n distinct vertices already on the path: node is one of them
        Covers(result[..counter], n);
      }
      if visited[node] {
        VisitedNodeBlocks(graph, start, result[..counter], node);
        return false;
      }
      ghost var path := result[..counter];
      visited[node] := true;
      result[counter] := node;
      assert result[..counter + 1] == path + [node];
      ExtendPath(graph, start, path, node);
      ghost var entryVisited := visited[..];
      assert forall v :: 0 <= v < n ==> (entryVisited[v] <==> v in path + [node]);
      var i := 0;
      while i < n
        invariant 0 <= i <= n
        invariant result[..counter + 1] == path + [node]
        invariant visited[..] == entryVisited
        invariant cycles == old(cycles)
        invariant forall r :: IsHamiltonianCycle(graph, start, r) && Extends(r, path, node) ==> i <= r[counter + 1]
      {
        if graph[node][i] {
          var ok := FindSolution(graph, visited, result, i, counter + 1, n, start);
          if ok {
            assert result[..counter] == (path + [node])[..counter];
            return true;
          }
          NoTourThroughNext(graph, start, path, node, i);
        } else {
          NoTourAlongMissingEdge(graph, start, path, node, i);
        }
        i := i + 1;
      }
      visited[node] := false;
      assert visited[..] == old(visited[..]);
      TriedEveryNext(graph, start, path, node);
      return false;
    }

    /**
      Tries start vertices 0, 1, ... in order, clearing `visited` before each
      attempt, until `numCycles` tours are found or every vertex has been a
      start. `tried` is the number of starts attempted; the tours appended to
      `cycles` are one per start below `tried` that has a tour, in order.
     */
    method HamiltonianCycleSingle(graph: seq<seq<bool>>, numCycles: int) returns (ghost tried: nat)
      requires IsMatrix(graph)
      modifies this
      ensures tried <= |graph|
      ensures |old(cycles)| <= |cycles| && cycles[..|old(cycles)|] == old(cycles)
      ensures |cycles| - |old(cycles)| == |Rooted(graph, tried)|
      ensures forall j :: 0 <= j < |Rooted(graph, tried)| ==>
                IsHamiltonianCycle(graph, Rooted(graph, tried)[j], cycles[|old(cycles)| + j])
      ensures tried < |graph| ==> |cycles| - |old(cycles)| == if numCycles < 0 then 0 else numCycles
      ensures |cycles| - |old(cycles)| <= |graph|
      ensures numCycles <= 0 ==> tried == 0 && cycles == old(cycles)
      ensures 0 <= numCycles ==> |cycles| - |old(cycles)| <= numCycles
      ensures forall k :: 0 <= k < tried ==> |Rooted(graph, k)| < numCycles
    {
      var n := |graph|;
      var visited := new bool[n];
      var result := new int[n + 1];
      var i := 0;
      var cyclesFound := 0;
      while i < n && cyclesFound < numCycles
        invariant 0 <= i <= n
        invariant |old(cycles)| <= |cycles| && cycles[..|old(cycles)|] == old(cycles)
        invariant cyclesFound == |cycles| - |old(cycles)| == |Rooted(graph, i)|
        invariant forall j :: 0 <= j < |Rooted(graph, i)| ==>
                    IsHamiltonianCycle(graph, Rooted(graph, i)[j], cycles[|old(cycles)| + j])
        invariant forall k :: 0 <= k < i ==> |Rooted(graph, k)| < numCycles
        invariant 0 < i ==> cyclesFound <= numCycles
      {
        SetDefault(visited, n);
        assert result[..0] == [];
        var ok := FindSolution(graph, visited, result, i, 0, n, i);
        if ok {
          cyclesFound := cyclesFound + 1;
        } else {
          assert forall r :: IsHamiltonianCycle(graph, i, r) ==> Extends(r, [], i);
        }
        i := i + 1;
      }
      tried := i;
      RootedExactly(graph, i);
    }
  }

  /** The success step: a full simple path from `start` whose last vertex reaches `start` closes a tour. */
  lemma ClosingTheTour(g: seq<seq<bool>>, start: int, r: seq<int>)
    requires IsMatrix(g) && |r| == |g| + 1 && 0 <= start < |g|
    requires IsSimplePath(g, start, r[..|g|]) && r[|g|] == start
    requires g[r[|g| - 1]][start]
    ensures IsHamiltonianCycle(g, start, r)
  {
    assert r[0] == r[..|g|][0];
    forall i | 0 <= i < |r| - 1
      ensures g[r[i]][r[i + 1]]
    {
      if i < |g| - 1 {
        assert g[r[..|g|][i]][r[..|g|][i + 1]];
      }
    }
  }

  /** The placement step: a vertex not yet on the path, reachable from its end, extends it. */
  lemma ExtendPath(g: seq<seq<bool>>, start: int, p: seq<int>, node: int)
    requires IsSimplePath(g, start, p) && 0 <= node < |g| && node !in p
    requires |p| == 0 ==> node == start
    requires |p| > 0 ==> g[p[|p| - 1]][node]
    ensures IsSimplePath(g, start, p + [node])
  {
    var q := p + [node];
    forall i | 0 <= i < |q| - 1
      ensures g[q[i]][q[i + 1]]
    {
      if i < |p| - 1 {
        assert g[p[i]][p[i + 1]];
      }
    }
  }

  /** The prune step: a vertex already on the path cannot come next, except as the closing start. */
  lemma VisitedNodeBlocks(g: seq<seq<bool>>, start: int, p: seq<int>, node: int)
    requires IsMatrix(g) && |p| <= |g| && node in p
    requires |p| == |g| ==> node != start
    ensures forall r :: IsHamiltonianCycle(g, start, r) ==> !Extends(r, p, node)
  {
    forall r | IsHamiltonianCycle(g, start, r) && |p| < |r| && r[..|p|] == p
      ensures r[|p|] != node
    {
      var j :| 0 <= j < |p| && p[j] == node;
      assert r[j] == node;
      if |p| < |g| {
        assert r[..|g|][j] != r[..|g|][|p|];
      }
    }
  }

  /** A failed recursive call rules out every tour whose next vertex is `next`. */
  lemma NoTourThroughNext(g: seq<seq<bool>>, start: int, path: seq<int>, node: int, next: int)
    requires |path| < |g|
    requires forall r :: IsHamiltonianCycle(g, start, r) ==> !Extends(r, path + [node], next)
    ensures forall r :: IsHamiltonianCycle(g, start, r) && Extends(r, path, node) ==> r[|path| + 1] != next
  {
    forall r | IsHamiltonianCycle(g, start, r) && Extends(r, path, node)
      ensures r[|path| + 1] != next
    {
      assert r[..|path| + 1] == r[..|path|] + [r[|path|]];
      assert !Extends(r, path + [node], next);
    }
  }

  /** No tour takes an edge the matrix lacks. */
  lemma NoTourAlongMissingEdge(g: seq<seq<bool>>, start: int, path: seq<int>, node: int, next: int)
    requires IsMatrix(g) && |path| < |g| && 0 <= node < |g| && 0 <= next < |g| && !g[node][next]
    ensures forall r :: IsHamiltonianCycle(g, start, r) && Extends(r, path, node) ==> r[|path| + 1] != next
  {
    forall r | IsHamiltonianCycle(g, start, r) && Extends(r, path, node)
      ensures r[|path| + 1] != next
    {
      assert g[r[|path|]][r[|path| + 1]];
    }
  }

  /** Once every candidate next vertex is ruled out, no tour continues the path with `node`. */
  lemma TriedEveryNext(g: seq<seq<bool>>, start: int, path: seq<int>, node: int)
    requires |path| < |g|
    requires forall r :: IsHamiltonianCycle(g, start, r) && Extends(r, path, node) ==> |g| <= r[|path| + 1]
    ensures forall r :: IsHamiltonianCycle(g, start, r) ==> !Extends(r, path, node)
  {
    forall r | IsHamiltonianCycle(g, start, r)
      ensures !Extends(r, path, node)
    {
      assert r[|path| + 1] < |g|;
    }
  }

}
