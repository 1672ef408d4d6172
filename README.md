# Directed graphs as adjacency lists and as an adjacency matrix

This project models two small C++ graph classes that share the vertex set `0..n-1`:

- **`Graph`** stores a directed multigraph as adjacency lists. `adj[u]` lists the destination of every edge leaving `u`, in insertion order, with repeats allowed. Its operations are:
  - `addEdge`, which appends only when both endpoints are vertices;
  - `getTranspose`;
  - `squareGraph`, which keeps a `visited` flag per destination;
  - a queue-driven `BFS`;
  - `toSimpleUndirected`, which collects per-vertex `unordered_set`s and then emits them.
- **`GraphMatrix`** stores an `n`×`n` matrix of `int`, where a non-zero entry means an edge. Its operations are:
  - a guarded `setEdge` whose value defaults to 1;
  - `getTranspose`;
  - a 0/1 `squareGraph`;
  - a `BFS` that scans each row by increasing column;
  - `findUniversalSink`, which runs a two-cursor elimination and then checks one row and one column.

Both classes are Dafny classes whose methods follow the source loops:

- `ListGraph.Graph` has a constant `numVertices` and a field `adj: seq<seq<int>>`, which `AddEdge` reassigns.
- `MatrixGraph.GraphMatrix` has a constant `n` and an `array2<int>`, which `SetEdge` writes.

Every method is proved against a specification. The specifications live in these modules:

- `ListSpec` holds value-level functions and lemmas over adjacency lists: `Transposed`, `Squared`, `SquareRow`, `AddNew` and `IsSimpleFormOf`.
- `Reach` holds edge sets, paths and reachability. It also holds a representation-independent description of a breadth-first visit order:
  - a discovery tree, where each vertex's parent is the first earlier listed vertex with an edge to it;
  - first-in-first-out processing, where parents never decrease;
  - closure under edges.
- `Seqs` holds sequence helpers: no duplicates, first index and a counting argument.

The sibling order is fixed by list order for `Graph` and by increasing column for `GraphMatrix`. With it, the BFS description has exactly one solution (`Reach.BfsUnique`). So the BFS contracts pin the output down completely. The client methods in `Examples` use this to derive exact visit orders.

## Model

| member | source | states |
|---|---|---|
| ListGraph.Graph.constructor | src/Graph.cpp:8 | `n` vertices, every adjacency list empty |
| ListGraph.Graph.AddEdge | src/Graph.cpp:11-15 | if both endpoints are vertices, `v` is appended to `adj[u]` and every other list is unchanged; otherwise nothing changes; every stored destination stays in range |
| ListGraph.Graph.Size | src/Graph.cpp:18-20 | the number of vertices, which equals the number of adjacency lists |
| ListGraph.Graph.AdjacencyList | src/Graph.cpp:23-25 | one list per vertex, every destination a vertex, the same edges as the graph |
| ListGraph.Graph.GetTranspose | src/Graph.cpp:30-38 | a fresh graph with the same vertex count whose lists are `Transposed(adj)` |
| ListGraph.Graph.AddReversedRow | src/Graph.cpp:33-35 | after source `u`'s list is scanned, row `v` of the transpose holds each source `<= u` once per edge to `v`, in non-decreasing order |
| ListSpec.Transposed | src/Graph.cpp:30-38 | the transpose has as many lists as the original |
| ListSpec.TransposeMultiplicity | src/Graph.cpp:30-38 | `v -> u` occurs in the transpose exactly as often as `u -> v` occurs in the original |
| ListSpec.TransposeShape | src/Graph.cpp:30-38 | the transpose's destinations are vertices, and each of its lists is sorted (non-decreasing) |
| ListSpec.TransposeEdges | include/Graph.h:32-34 | the transpose's edge set is exactly the original's edge set reversed |
| ListSpec.TransposeEdgeCount | src/Graph.cpp:30-38 | the transpose has the same number of edges, counted with multiplicity |
| ListSpec.TransposeTwice | src/Graph.cpp:30-38 | transposing twice gives back every adjacency list as a multiset |
| Reach.ReverseReachable | include/Graph.h:32-34 | `t` is reachable from `s` iff `s` is reachable from `t` with every edge reversed |
| ListGraph.Graph.SquareGraph | src/Graph.cpp:44-69 | a fresh graph with the same vertex count whose lists are `Squared(adj)` |
| ListGraph.Graph.FillSquareRow | src/Graph.cpp:48-66 | one pass of the outer loop sets row `u` of the result to `SquareRow(adj, u)` and leaves the other rows alone |
| ListGraph.Graph.AddSuccessorsOf | src/Graph.cpp:50-66 | scanning `adj[v]` appends the destinations that are not `u` and not yet flagged, in list order, and keeps each flag equal to membership in row `u` |
| ListGraph.Graph.Mark | src/Graph.cpp:51-55 | one candidate `w` is appended and flagged exactly when it differs from `u` and is unflagged |
| ListSpec.Squared | src/Graph.cpp:44-69 | the square has as many lists as the original |
| ListSpec.SquareRowMembers | src/Graph.cpp:44-69 | `w` is in row `u` of the square iff `w != u` and `w` is a successor of `u` or of a successor of `u` |
| ListSpec.SquareRowNoDup | src/Graph.cpp:44-69 | no destination occurs twice in a row of the square, and `u` is not in its own row |
| ListSpec.SquareRowOneHopFirst | src/Graph.cpp:50-66 | a row of the square starts with the distinct direct successors other than `u`, in adjacency order; every later entry is not a direct successor, and those later entries keep the order of their first occurrence in the two-hop scan |
| ListSpec.SquaredWellFormed | src/Graph.cpp:44-69 | every destination of the square is a vertex |
| ListGraph.Graph.BFS | src/Graph.cpp:73-93 | an empty result when `start` is not a vertex; otherwise at most `numVertices` entries, exactly the vertices reachable from `start`, in the unique breadth-first order that scans each list front to back, and listed by non-decreasing distance from `start` (`ByDistance`) |
| ListGraph.Graph.ScanSuccessors | src/Graph.cpp:84-90 | processing the vertex just dequeued pushes its unflagged successors in list order, keeps the queue invariant, and marks that vertex as fully scanned |
| ListGraph.ScanPush | src/Graph.cpp:86-89 | appending an unlisted successor, with the current vertex as parent, keeps the scan invariant one entry further on |
| ListGraph.BfsOrderUnique | src/Graph.cpp:80-91 | two breadth-first orders of the same lists from the same start are equal |
| Reach.ScannedBfs | src/Graph.cpp:80-92 | when the queue runs empty with every listed vertex scanned, the list is a breadth-first order and holds exactly the reachable vertices |
| Reach.TreeListsReachable | include/Graph.h:41-44 | the vertices of a discovery tree closed under edges are exactly those reachable from its root |
| Reach.BfsUnique | src/Graph.cpp:80-91 | a start vertex and a ranking of siblings admit one breadth-first order |
| ListGraph.Graph.ToSimpleUndirected | src/Graph.cpp:98-120 | a fresh graph with the same vertex count in which each row holds every simple neighbour once: `v` is in row `u` iff `u != v` and `u -> v` or `v -> u` is an original edge |
| ListSpec.SimpleFormShape | include/Graph.h:46-52 | a simple form is well formed, symmetric and loop-free |
| ListSpec.SimplifyIdempotent | src/Graph.cpp:104-110 | simplifying a simple form again gives every row back as a multiset |
| MatrixGraph.GraphMatrix.constructor | src/GraphMatrix.cpp:8 | an `n`×`n` matrix of zeros |
| MatrixGraph.GraphMatrix.EdgeSet | include/GraphMatrix.h:12-15 | the edges are exactly the non-zero entries, and all of them lie within the vertices |
| MatrixGraph.GraphMatrix.SetEdge | src/GraphMatrix.cpp:12-15 | entry `[u, v]` becomes `value` when both are vertices; every other entry is unchanged, and nothing changes when either index is out of range |
| MatrixGraph.GraphMatrix.Size | src/GraphMatrix.cpp:18-20 | the vertex count, which equals both dimensions of the matrix |
| MatrixGraph.GraphMatrix.GetMatrix | src/GraphMatrix.cpp:23-25 | an `n`×`n` copy of the entries that is non-zero exactly at the edges |
| MatrixGraph.GraphMatrix.GetTranspose | src/GraphMatrix.cpp:29-37 | a fresh graph with `[j, i]` equal to `[i, j]`, values copied, and with exactly the reversed edge set |
| Examples.MatrixTransposeTwice | src/GraphMatrix.cpp:29-37 | transposing twice gives back every entry |
| MatrixGraph.GraphMatrix.SquareGraph | src/GraphMatrix.cpp:42-66 | a fresh graph whose entry `[i, j]` is 1 when there is an edge `i -> j` or some `k` with edges `i -> k -> j`, and 0 otherwise, diagonal included |
| MatrixGraph.GraphMatrix.AddTwoStepsVia | src/GraphMatrix.cpp:57-61 | given an edge `i -> k`, row `i` gets a 1 at every successor of `k`; every other entry is unchanged |
| MatrixGraph.GraphMatrix.BFS | src/GraphMatrix.cpp:71-92 | an empty result when `start` is not a vertex; otherwise at most `n` entries, exactly the vertices reachable from `start`, in the unique breadth-first order that scans each row by increasing column, and listed by non-decreasing distance from `start` (`ByDistance`) |
| MatrixGraph.GraphMatrix.ScanRow | src/GraphMatrix.cpp:84-89 | processing the vertex just dequeued pushes its unflagged successors by increasing column, keeps the queue invariant, and marks that vertex as fully scanned |
| MatrixGraph.ColumnPush | src/GraphMatrix.cpp:85-88 | appending an unlisted successor in column `c` keeps the row-scan invariant at column `c + 1` |
| MatrixGraph.ColumnBfsOrderUnique | src/GraphMatrix.cpp:78-90 | two breadth-first orders by increasing column from the same start are equal |
| MatrixGraph.GraphMatrix.FindUniversalSink | src/GraphMatrix.cpp:98-133 | returns `-1` iff no vertex is a universal sink; otherwise returns a universal sink: a zero row (diagonal included) and a non-zero entry in every other row of its column |
| MatrixGraph.GraphMatrix.SinkUnique | include/GraphMatrix.h:46-50 | at most one vertex is a universal sink, so the sink returned is the sink |
| MatrixGraph.GraphMatrix.SinkDegrees | include/GraphMatrix.h:46-50 | a vertex is a universal sink iff its out-degree is 0 and its in-degree is `n - 1` |
| Reach.LayersNonDecreasing | src/Graph.cpp:80-91 | in a breadth-first order, the tree depth of the vertices never decreases along the order |
| Reach.EdgeLayer | src/Graph.cpp:80-91 | an edge leads at most one layer deeper in the discovery tree |
| Reach.PathNoShorter | src/Graph.cpp:80-91 | every path from `start` to a visited vertex is at least as long as its tree depth |
| Reach.TreePath | src/Graph.cpp:80-91 | following the discovery tree gives a path from `start` whose length is the vertex's depth |
| Reach.DepthIsDistance | src/Graph.cpp:80-91 | the tree depth of a visited vertex is its shortest-path distance from `start` |
| Reach.BfsByDistance | src/GraphMatrix.cpp:78-90 | a breadth-first order lists the vertices by non-decreasing distance from `start` |
| Examples.CompareSquares | src/GraphMatrix.cpp:42-66 | for a list graph and a matrix graph with the same edges, the two squares agree off the diagonal; the list square never has `u` in row `u`, while the matrix square's diagonal is 1 exactly when `u` has a self-loop or lies on a 2-cycle |
| Examples.SquaresOfTwoCycle | src/Graph.cpp:44-69 | the 2-cycle `0 -> 1 -> 0` built with `addEdge` and with `setEdge` squares to the lists `[[1], [0]]` but to a matrix with diagonal `[1, 1]` |
| Examples.TwoCycleSquare | src/Graph.cpp:44-69 | the list square of `[[1], [0]]` is `[[1], [0]]` |
| Examples.DiamondListBfs | src/Graph.cpp:73-93 | the diamond whose edges are added as `0->2`, `0->1`, `2->3`, `1->3` is visited from 0 as `[0, 2, 1, 3]` |
| Examples.DiamondMatrixBfs | src/GraphMatrix.cpp:71-92 | the same diamond as a matrix is visited from 0 as `[0, 1, 2, 3]` |
| Examples.SinkOfTotalOrder | src/GraphMatrix.cpp:98-133 | with an edge `i -> j` for every `i < j`, the sink found is `n - 1` |
| Examples.SinkOfCycle | src/GraphMatrix.cpp:98-133 | a directed cycle through all `n` vertices has no universal sink: the result is `-1` |
| Examples.SquareOfPath | src/Graph.cpp:44-69 | the square of the path `0 -> 1 -> 2` has the lists `[[1, 2], [2], []]` |
| Examples.SimplifyTwoCycle | src/Graph.cpp:98-120 | the edges `0->1`, `1->0`, the loop `1->1` and a repeated `0->1` simplify to `[[1], [0]]` |

## Left out

- The console drivers, which handle input, output and random graph generation, are not part of this model. Some of them read BFS results as distances; the drivers themselves are not modelled, but the order by distance is (`Reach.BfsByDistance`).
- `int` is modelled as unbounded. No arithmetic in the core goes beyond index increments.
- The constructors take a `nat`. A negative size is not meaningful for the source's vectors.
- Complexity bounds stated in the comments are not modelled. For `FindUniversalSink`, the cursor loop's measure `(n - i) + (n - j)` bounds its steps by `2n`.
- `ListGraph.Graph.ToSimpleUndirected`: each row is built as a set and then emitted in an unspecified order.
  - The model picks each next element nondeterministically.
  - So the contract fixes each row's contents and states that it has no repeats, but not its order.
  - This matches the hash-dependent iteration order of `unordered_set`.
- `ListGraph.Graph.BFS` and `ListGraph.Graph.ToSimpleUndirected`: the source skips list entries that are not vertices (src/Graph.cpp:85 and 103). The class invariant `Valid` keeps every destination in range, because `addEdge` is the only way to add one. So the skip can never fire and is folded into the loop conditions.
- The headers and one comment say that `addEdge` and `setEdge` do not check bounds (include/Graph.h:23, include/GraphMatrix.h:21-22, src/GraphMatrix.cpp:11). The code does check bounds (src/Graph.cpp:12-13, src/GraphMatrix.cpp:13), and the model follows the code.
- The header describes the square as containing every pair joined by a path of length one or two (include/Graph.h:36-39). The list version drops `u` from its own row (src/Graph.cpp:51, 60), and the model follows that code. The matrix version keeps the diagonal, and so does its model. `Examples.CompareSquares` states the difference between the two.
- `getAdjacencyList` and `getMatrix` return references to internal storage. The model returns values, so aliasing through those references is not captured.
- Storage classes are modelled abstractly:
  - `std::queue` as a sequence;
  - `std::vector<bool>` flags as `array<bool>`;
  - the per-vertex `unordered_set`s as a sequence of `set<int>`.
