/**
  The benchmark script test.py: the same search as knot.py, except that each
  success prints `result` instead of storing it, plus `hamiltonianCycle_multi`,
  one attempt from a given start with buffers of its own, and the fixed
  42-vertex edge list its `main` feeds to the search. What a call prints is
  returned here as the list of printed tours.
 */
module TestScript {
  import opened Graphs
  import opened Knot

  /**
    `hamiltonianCycle_single`: tries starts 0, 1, ... until `numCycles`
    tours have been printed or every vertex has been a start; it prints one
    tour per start below `tried` that has one, in order.
   */
  method HamiltonianCycleSingle(graph: seq<seq<bool>>, numCycles: int)
    returns (printed: seq<seq<int>>, ghost tried: nat)
    requires IsMatrix(graph)
    ensures tried <= |graph| && |printed| == |Rooted(graph, tried)|
    ensures forall j :: 0 <= j < |printed| ==> IsHamiltonianCycle(graph, Rooted(graph, tried)[j], printed[j])
    ensures tried < |graph| ==> |printed| == if numCycles < 0 then 0 else numCycles
    ensures forall k :: 0 <= k < tried ==> |Rooted(graph, k)| < numCycles
    ensures |printed| <= |graph| && (0 <= numCycles ==> |printed| <= numCycles)
    ensures numCycles <= 0 ==> tried == 0 && printed == []
  {
    var console := new CycleSearch();
    tried := console.HamiltonianCycleSingle(graph, numCycles);
    printed := console.cycles;
  }

  /**
    `hamiltonianCycle_multi`: one attempt from `startVert` with freshly
    allocated `visited` and `result`; `numCycles` is not consulted. It prints
    a tour exactly when one is rooted at `startVert`, that is, exactly when
    the attempt for `startVert` in `HamiltonianCycleSingle` succeeds.
   */
  method HamiltonianCycleMulti(graph: seq<seq<bool>>, numCycles: int, startVert: int)
    returns (printed: seq<seq<int>>)
    requires IsMatrix(graph) && 0 <= startVert < |graph|
    ensures |printed| <= 1
    ensures printed != [] <==> HasCycleFrom(graph, startVert)
    ensures printed != [] <==> startVert in Rooted(graph, |graph|)
    ensures printed != [] ==> IsHamiltonianCycle(graph, startVert, printed[0])
  {
    var n := |graph|;
    var visited := new bool[n];
    var result := new int[n + 1];
    SetDefault(visited, n);
    var console := new CycleSearch();
    assert result[..0] == [];
    var ok := console.FindSolution(graph, visited, result, startVert, 0, n, startVert);
    printed := console.cycles;
    if !ok {
      assert forall r :: IsHamiltonianCycle(graph, startVert, r) ==> Extends(r, [], startVert);
    }
    RootedExactly(graph, n);
  }

  /**
    The edge list `main` builds its graph from: 120 pairs over the ids
    0 .. 41, written here in four blocks of 30 pairs, in the script's order.
   */
  const FixtureEdges: seq<(int, int)> := Fixture0 + (Fixture1 + (Fixture2 + Fixture3))
  const Fixture0: seq<(int, int)> :=
    [(12, 0), (13, 1), (14, 2), (15, 1), (16, 5), (17, 0), (18, 3), (19, 0), (20, 4), (21, 5),
     (22, 1), (23, 10), (24, 2), (25, 6), (26, 3), (27, 7), (28, 4), (29, 8), (30, 5), (31, 9),
     (32, 6), (33, 7), (34, 8), (35, 9), (36, 10), (37, 6), (38, 11), (39, 7), (40, 8), (41, 9)]
  const Fixture1: seq<(int, int)> :=
    [(2, 12), (0, 13), (1, 14), (5, 15), (0, 16), (3, 17), (2, 18), (4, 19), (3, 20), (4, 21),
     (10, 22), (5, 23), (6, 24), (1, 25), (7, 26), (2, 27), (8, 28), (3, 29), (9, 30), (4, 31),
     (10, 32), (6, 33), (7, 34), (8, 35), (9, 36), (11, 37), (10, 38), (11, 39), (11, 40), (11, 41)]
  const Fixture2: seq<(int, int)> :=
    [(38, 41), (38, 36), (41, 36), (41, 40), (41, 35), (40, 35), (40, 39), (40, 34), (39, 34), (39, 37),
     (39, 33), (37, 33), (37, 38), (37, 32), (38, 32), (23, 36), (23, 30), (36, 30), (31, 35), (31, 28),
     (35, 28), (29, 34), (29, 26), (34, 26), (27, 33), (27, 24), (33, 24), (25, 32), (25, 22), (32, 22)]
  const Fixture3: seq<(int, int)> :=
    [(30, 31), (30, 21), (31, 21), (28, 29), (28, 20), (29, 20), (26, 27), (26, 18), (27, 18), (24, 25),
     (24, 14), (25, 14), (22, 23), (22, 15), (23, 15), (16, 21), (16, 19), (21, 19), (19, 20), (19, 17),
     (20, 17), (17, 18), (17, 12), (18, 12), (15, 16), (15, 13), (16, 13), (12, 14), (12, 13), (14, 13)]

  lemma Block0InRange()
    ensures forall i :: 0 <= i < |Fixture0| ==> IdsBelow(Fixture0[i], 42)
  {
  }

  lemma Block1InRange()
    ensures forall i :: 0 <= i < |Fixture1| ==> IdsBelow(Fixture1[i], 42)
  {
  }

  lemma Block2InRange()
    ensures forall i :: 0 <= i < |Fixture2| ==> IdsBelow(Fixture2[i], 42)
  {
  }

  lemma Block3InRange()
    ensures forall i :: 0 <= i < |Fixture3| ==> IdsBelow(Fixture3[i], 42)
  {
  }

  /** Every id in the fixture is below 42. */
  lemma FixtureIdsBelow42()
    ensures forall e :: e in FixtureEdges ==> IdsBelow(e, 42)
  {
    Block0InRange();
    Block1InRange();
    Block2InRange();
    Block3InRange();
    forall e | e in FixtureEdges
      ensures IdsBelow(e, 42)
    {
      assert e in Fixture0 || e in Fixture1 || e in Fixture2 || e in Fixture3;
    }
  }

  /** The first block lists ids 12 .. 41 in order as first ends ... */
  lemma FirstBlockFirstEnds()
    ensures |Fixture0| == 30 && forall i :: 0 <= i < 30 ==> Fixture0[i].0 == 12 + i
  {
  }

  /** ... and ids 0 .. 11 among its second ends. */
  lemma FirstBlockSecondEnds()
    ensures Fixture0[0].1 == 0 && Fixture0[1].1 == 1 && Fixture0[2].1 == 2 && Fixture0[6].1 == 3
    ensures Fixture0[8].1 == 4 && Fixture0[4].1 == 5 && Fixture0[13].1 == 6 && Fixture0[15].1 == 7
    ensures Fixture0[17].1 == 8 && Fixture0[19].1 == 9 && Fixture0[11].1 == 10 && Fixture0[26].1 == 11
  {
  }

  /** Every id 0 .. 41 occurs at one end of some fixture pair, all of them within the first block. */
  lemma FixtureNamesEveryId()
    ensures forall v :: 0 <= v < 42 ==> Mentions(FixtureEdges, v)
  {
    FirstBlockFirstEnds();
    FirstBlockSecondEnds();
    var second := [0, 1, 2, 6, 8, 4, 13, 15, 17, 19, 11, 26];
    forall v | 0 <= v < 42
      ensures Mentions(FixtureEdges, v)
    {
      var i := if v >= 12 then v - 12 else second[v];
      assert Fixture0[i].0 == v || Fixture0[i].1 == v;
      MentionedAt(Fixture0, i);
      MentionsPrefix(Fixture0, Fixture1 + (Fixture2 + Fixture3), v);
    }
  }

  /**
    The fixture is densely numbered: its ids are exactly 0 .. 41, so
    `make_adjacency` builds a 42 x 42 matrix and writes no entry out of range.
   */
  lemma FixtureIsDense()
    ensures Ids(FixtureEdges) == Vertices(42)
    ensures DenseIds(FixtureEdges) && |Ids(FixtureEdges)| == 42
  {
    FixtureIdsBelow42();
    FixtureNamesEveryId();
    IdsAreExactly(FixtureEdges, 42);
  }
}
