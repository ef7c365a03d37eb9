# Hamiltonian-cycle search of hamiltonian-knot, in Dafny

The repository's scripts build knot sculptures in Blender from the closed
tours of a mesh's edge graph. Its algorithmic core is a backtracking search
for Hamiltonian cycles, written twice: in `knot.py` and again in `test.py`.
This project models that core and proves what it delivers.

- `graphs.dfy`, module `Graphs`: the vocabulary. It defines the square
  adjacency matrix, simple paths and closed Hamiltonian tours, laid out as the
  search's `n + 1`-slot `result` buffer. It also holds the pigeonhole lemmas
  the search depends on, and `Rooted`, the start vertices that have a tour.
- `knot.dfy`, module `Knot`: the code of `knot.py`.
  - `make_adjacency` is a loop over the edge list. It fills a `seq<seq<bool>>`
    matrix: entry 1 is `true`, entry 0 is `false`.
  - `set_default` is a loop over the `visited` array.
  - The module-level `CYCLES` list is the `cycles` field of class
    `CycleSearch`. Its methods `FindSolution` and `HamiltonianCycleSingle`
    work on `visited: array<bool>` and `result: array<int>`, passed as
    parameters, as in the script.
  - A snapshot is `result[..]`, a value. Later writes to `result` cannot
    change it, which is what the script's deep copy achieves.
- `test_script.dfy`, module `TestScript`: what `test.py` adds.
  - `hamiltonianCycle_single` and `hamiltonianCycle_multi` print each tour
    they find. Here they return the list of printed tours.
  - The fixed 42-vertex edge list of `main` is the constant `FixtureEdges`.

`test.py`'s `findSolution` (test.py:33-55), `setDefault` (test.py:57-61) and
`make_adjacency` (test.py:88-96) are the same code as `knot.py`'s
`find_solution`, `set_default` and `make_adjacency`. The one difference is
test.py:36, which prints `result` where knot.py:47 appends a copy to `CYCLES`.
The `Knot` members model both copies, and the `TestScript` methods run them
with the printed tours collected in a fresh `CycleSearch`.

What is proved about the search:
- On success, `result` is a closed tour from `start`. It visits every vertex
  exactly once, takes only edges of the matrix, and ends where it began. One
  snapshot of it is appended, and every vertex is left visited.
- On failure, `visited` and the recorded cycles are as they were on entry.
  Also, no tour from `start` continues the current path, so a failed attempt
  from an empty path means no tour is rooted at that start.
- `counter` never exceeds `n` (a pigeonhole argument), so every `result` write
  stays within its `n + 1` slots.
- `hamiltonian_cycle_single` tries starts in increasing order. It records one
  tour per start that has one, and stops at `num_cycles` tours or after the
  last vertex. It records at most `min(num_cycles, n)` tours, and nothing when
  `num_cycles <= 0`.

Facts of the script that the model keeps:
- The matrix is directed. A pair `[a, b]` sets only `[a][b]` (knot.py:115),
  although the docstring at knot.py:108 says "Non directed".
- `result` is allocated once (knot.py:87) and reused across starts. Only
  `visited` is cleared before each start (knot.py:91).
- Edge lists whose ids are not exactly `0 .. size-1` are excluded by the
  precondition `DenseIds`. The script raises `IndexError` for an id at or
  above `size` (knot.py:115).

## Model

| member | source | states |
|---|---|---|
| `Knot.SetDefault` | knot.py:68-75 | `visited[0..n)` is all false afterwards and every later entry is unchanged; a negative `n` clears nothing |
| `Knot.MakeAdjacency` | knot.py:106-117 | the matrix is `size x size` with `size` the number of distinct ids, and entry `[a][b]` is set exactly when the pair `(a, b)` is listed |
| `Knot.IdsMembers` | knot.py:110 | the id set holds exactly the ids at either end of a listed pair |
| `Knot.DenseIdsAreVertices` | knot.py:110-115 | when every id is below the distinct-id count, the ids are exactly `0 .. size-1` |
| `Knot.IdsAreExactly` | knot.py:110-115 | pairs that stay below `k` and name every id below `k` have `k` distinct ids and meet the dense-numbering requirement |
| `Knot.RepresentsUnique` | knot.py:112-117 | two matrices built from the same edge list are identical (building twice gives the same matrix) |
| `Knot.SymmetricIffBothDirections` | knot.py:114-115 | the matrix is symmetric if and only if every listed pair is also listed reversed; one pair alone gives a one-way edge |
| `Knot.CycleSearch.constructor` | knot.py:37 | the cycle list starts empty |
| `Knot.CycleSearch.FindSolution` | knot.py:41-65 | from a simple path whose vertices are the visited ones: success leaves a closed Hamiltonian tour from `start` in `result`, appends exactly that snapshot and leaves every vertex visited; failure restores `visited`, appends nothing and means no tour continues the path with `node`; the path prefix is never changed |
| `Knot.CycleSearch.HamiltonianCycleSingle` | knot.py:79-94 | starts are tried 0, 1, ... with `visited` cleared each time; one tour is appended per start below `tried` that has a tour, in order; the loop stops at `num_cycles` tours or after the last vertex; at most `min(num_cycles, n)` tours, none when `num_cycles <= 0` |
| `Knot.ClosingTheTour` | knot.py:45-48 | the success branch, reached with `n` vertices placed and `node == start`, holds a closed Hamiltonian tour |
| `Knot.VisitedNodeBlocks` | knot.py:50-51 | pruning a visited vertex loses no tour: no tour revisits a placed vertex before the closing step |
| `Knot.ExtendPath` | knot.py:54-56 | marking an unvisited neighbour and storing it at `result[counter]` extends the simple path |
| `Knot.NoTourThroughNext` | knot.py:59-61 | a failed recursive call for neighbour `i` rules out every tour whose next vertex is `i` |
| `Knot.NoTourAlongMissingEdge` | knot.py:59 | skipping a non-neighbour `i` loses no tour |
| `Knot.TriedEveryNext` | knot.py:57-65 | once all candidates `0 .. n-1` are ruled out, no tour continues the path with `node` |
| `Graphs.Covers` | knot.py:45-51 | pigeonhole: `n` distinct vertex ids name every vertex, so at `counter == n` every vertex but the closing start is pruned |
| `Graphs.CycleVisitsEveryVertex` | knot.py:45-62 | a recorded tour's first `n` entries are a permutation of `0 .. n-1` and its two ends equal the start |
| `Graphs.EveryVertexHasExit` | knot.py:57-62 | if any start has a tour, every vertex has an outgoing edge; so a vertex without one makes every attempt fail |
| `Graphs.RootedExactly` | knot.py:88-94 | the starts that succeed, tried in increasing order, are exactly those below the bound that have a tour, strictly increasing and no more than the bound |
| `TestScript.HamiltonianCycleSingle` | test.py:65-77 | the tours printed are one per start below `tried` that has a tour, in order; printing stops at `num_cycles` tours or after the last vertex, and never exceeds `min(num_cycles, n)` |
| `TestScript.HamiltonianCycleMulti` | test.py:79-86 | one attempt from `start_vert` on fresh buffers prints at most one tour; it prints exactly when a tour is rooted at `start_vert`, the same outcome as that start's attempt in the single-threaded loop, and what it prints is such a tour |
| `TestScript.FixtureIdsBelow42` | test.py:128 | every id in the fixture edge list is in `0 .. 41` |
| `TestScript.FixtureNamesEveryId` | test.py:128 | every id `0 .. 41` occurs in the fixture edge list |
| `TestScript.FixtureIsDense` | test.py:128-132 | the fixture's ids are exactly `0 .. 41`, so it meets `make_adjacency`'s dense-numbering requirement and yields a 42 x 42 matrix |

## Left out

- Blender integration is not modelled: scene setup, mesh and curve creation, materials, lighting, camera and rendering (knot.py:124-200, knot.py:218-366, test.py:25-29, test.py:103-118). These are calls into `bpy`/`bmesh`.
- Recovering the edge list by regex from bmesh's printed form (knot.py:181-188) is not modelled. It depends on an outside library's text format.
- Mapping found tours back to mesh edges (knot.py:207-216) is not modelled. It is tied to the mesh's edge selection.
- Random rotations and HSV colours (knot.py:261-332) are not modelled. They use floating point and randomness.
- The thread-pool benchmark and its `time()` measurements in test.py's `main` (test.py:134-154) are not modelled. `hamiltonianCycle_multi` is modelled as one sequential attempt; the race on the print stream between concurrent attempts is not.
- knot.py's `hamiltonian_cycle_multi` (knot.py:96-103) is commented out in the script and is not modelled; test.py's live copy is.
- Printing is not modelled as output. Printed tours are returned as a list instead.
- Edge lists with ids at or above the distinct-id count are excluded by the precondition `DenseIds`. In the script these raise an error or, for negative ids, index from the end of a list.
- Two `IndexError` paths are excluded by a precondition, and no call site in either script reaches them. `set_default` with `n` beyond the length of `visited` clears every entry and then raises (knot.py:73-74); `Knot.SetDefault` requires `n <= visited.Length`. `hamiltonianCycle_multi` with `start_vert` outside `0 .. n-1` raises, or wraps for a negative id (test.py:86); `TestScript.HamiltonianCycleMulti` requires `0 <= startVert < |graph|`.
- Knot.CycleSearch.FindSolution: the contract does not say which tour is found. The search tries neighbours in increasing order, so it finds the first tour in that order. The contract only says the result is a valid tour and that failure means no tour exists.
- TestScript.HamiltonianCycleMulti: the contract states that success matches the single-threaded attempt from the same start. It does not state that the two print the same tour.

