# Matrix graph path search, modelled in Dafny

This project models the algorithmic core of the FinalProject graph server.

- **Matrix as a graph.** A matrix is a grid of optional integers. Through `IGraph<Index>` it is a graph whose vertices are the cells.
  - A vertex's *adjacent* vertices are its in-bounds neighbours under the matrix kind.
  - Its *reachable* vertices are the adjacent ones that hold a value. Nothing is reachable from an empty cell.
- **Matrix kinds.** There are three, from `MatrixType`:
  - STANDARD: the 4 orthogonal steps;
  - CROSS: the 4 diagonal steps;
  - REGULAR: all 8 steps.
- **Path searches.** Two searches run over the reachable relation from the graph's root:
  - `findAllPaths`: every simple path to a target;
  - `findShortestPaths`: every tied shortest one.

  Both sit behind a guard that refuses a matrix of more than 50 x 50 cells.
- **Submarine action.** The `FindSubmarines` action answers NOT_FOUND without a stored graph, and OK with the submarines otherwise. It documents four submarine rules.

The source of `FindPaths` is not part of this model. Its behaviour is taken from the assertions of `FindPathsTest`, which also supplies the two helpers modelled here:
- `replaceZeroesWithNulls`, an in-place loop over an `Integer[][]`;
- `pathsValidation`, the test's result check.

The neighbour rules of the three kinds follow those test expectations:
- the STANDARD paths move only orthogonally;
- the CROSS paths move only diagonally, and the CROSS no-path case holds only if orthogonal steps are excluded;
- the REGULAR paths mix both kinds of step.

For REGULAR this is pinned by the one-path test: its expected path steps diagonally from (3, 0) to (4, 1) (FindPathsTest.java:196). So a REGULAR matrix takes all 8 steps.

Files, one module each:

- `wrappers.dfy`: `Option` and `Result`.
- `mat.dfy`: `Index`, the three kinds and their step rules, the `Matrix` over a rectangular grid, and `newInstance`.
- `graph_adapter.dfy`: the `IGraph` queries over a matrix.
- `graph_text.dfy`: the `printGraph` and `toString` renderings.
- `paths.dfy`: path predicates, the depth-first all-paths search, the reference definition of the shortest paths, and the input guard.
- `layers.dfy`: the theory of a breadth-first search over a finite edge set. It covers the seen cells after k rounds, the frontier paths of round k, and why the frontier paths that end at the target are exactly the shortest walks.
- `shortest_search.dfy`: `findShortestPaths` as a breadth-first method. Each round extends the frontier paths to unseen reachable cells, which keeps every tied predecessor. The method is proved against the shortest-path predicate.
- `path_facts.dfy`: properties of the two searches.
- `find_paths_cases.dfy`: test cases whose answers follow from those properties.
- `test_support.dfy`: `replaceZeroesWithNulls` and `pathsValidation`.
- `submarines.dfy`: the submarine rules and the `FindSubmarines` action.

Paths below are relative to the repository root.

## Model

| member | source | states |
|---|---|---|
| Mat.Offsets | Project/Code/FinalProject/Common/src/main/java/org/hit/internetprogramming/eoh/common/mat/MatrixType.java:12 | Each kind lists exactly the offsets of one step under its rule (STANDARD 4 orthogonal, CROSS 4 diagonal, REGULAR 8), each offset once |
| Mat.StepSymmetric | Project/Code/FinalProject/Server/src/test/java/org/hit/internetprogramming/eoh/server/graph/algorithm/FindPathsTest.java:138-148 | Under every kind, b is one step from a exactly when a is one step from b |
| Mat.RegularIsStandardOrCross | Project/Code/FinalProject/Server/src/test/java/org/hit/internetprogramming/eoh/server/graph/algorithm/FindPathsTest.java:186-196 | A REGULAR step is a STANDARD step or a CROSS step, never both |
| Mat.NewInstance | Project/Code/FinalProject/Common/src/main/java/org/hit/internetprogramming/eoh/common/mat/MatrixType.java:28-41 | The new matrix has the requested kind, or REGULAR when construction fails; it has the requested dimensions and no cell holds a value |
| GraphAdapter.GetRoot | Project/Code/FinalProject/Common/src/main/java/org/hit/internetprogramming/eoh/common/graph/IGraph.java:22-25 | The root is the vertex the graph was built with |
| GraphAdapter.Adjacent | Project/Code/FinalProject/Common/src/main/java/org/hit/internetprogramming/eoh/common/graph/IGraph.java:27-34 | The adjacent vertices are exactly the in-bounds cells one step away, whether or not they hold a value, each listed once |
| GraphAdapter.Reachable | Project/Code/FinalProject/Common/src/main/java/org/hit/internetprogramming/eoh/common/graph/IGraph.java:36-44 | The reachable vertices are exactly the adjacent vertices holding a value, and only when v holds a value; each is listed once |
| GraphAdapter.GetAdjacentVertices | Project/Code/FinalProject/Common/src/main/java/org/hit/internetprogramming/eoh/common/graph/IGraph.java:27-34 | Fails exactly for a vertex outside the graph; otherwise returns the in-bounds cells one step away |
| GraphAdapter.GetReachableVertices | Project/Code/FinalProject/Common/src/main/java/org/hit/internetprogramming/eoh/common/graph/IGraph.java:36-44 | Fails exactly for a vertex outside the graph; otherwise returns the valued adjacent cells, and nothing from an empty cell |
| GraphAdapter.GetValue | Project/Code/FinalProject/Common/src/main/java/org/hit/internetprogramming/eoh/common/graph/IGraph.java:98-104 | Fails exactly outside the graph; otherwise it gives a value exactly when the cell holds one, and then gives the stored value, so an empty cell differs from a stored 0 |
| GraphAdapter.GetVertices | Project/Code/FinalProject/Common/src/main/java/org/hit/internetprogramming/eoh/common/graph/IGraph.java:84-89 | Every vertex of the graph and nothing else, in strictly increasing row-major order, rows x cols of them |
| GraphAdapter.GetGraphSize | Project/Code/FinalProject/Common/src/main/java/org/hit/internetprogramming/eoh/common/graph/IGraph.java:76-82 | The size is the number of vertices `getVertices` lists |
| GraphAdapter.GetEdges | Project/Code/FinalProject/Common/src/main/java/org/hit/internetprogramming/eoh/common/graph/IGraph.java:91-96 | The edges are exactly the pairs of in-graph vertices one step apart |
| GraphAdapter.Contains | Project/Code/FinalProject/Common/src/main/java/org/hit/internetprogramming/eoh/common/graph/IGraph.java:106-112 | A vertex belongs to the graph exactly when it lies within the matrix's rows and columns |
| GraphAdapter.ContainsIsVertex | Project/Code/FinalProject/Common/src/main/java/org/hit/internetprogramming/eoh/common/graph/IGraph.java:106-112 | A vertex belongs to the graph exactly when `getVertices` lists it |
| GraphText.PrintGraph | Project/Code/FinalProject/Common/src/main/java/org/hit/internetprogramming/eoh/common/graph/IGraph.java:46-59 | An empty matrix prints as the empty text. Otherwise, splitting the text at its line breaks gives exactly the printed rows, one line per matrix row and in row order |
| GraphText.GraphToString | Project/Code/FinalProject/Common/src/main/java/org/hit/internetprogramming/eoh/common/graph/IGraph.java:61-74 | The text is enclosed in brackets (`[]` for an empty matrix). Otherwise it has one line per matrix row, in row order. Line i is row i's bracketed list, preceded by `[` on the first line and followed by `,`, or by `]` on the last line |
| GraphText.LinesOfJoin | Project/Code/FinalProject/Common/src/main/java/org/hit/internetprogramming/eoh/common/graph/IGraph.java:46-59 | Lines without breaks, joined by line breaks, split back into exactly those lines |
| GraphText.NatTextRoundTrip | Project/Code/FinalProject/Common/src/main/java/org/hit/internetprogramming/eoh/common/graph/IGraph.java:46-59 | Reading the printed digits of a cell value back gives the value |
| GraphText.CellText | Project/Code/FinalProject/Common/src/main/java/org/hit/internetprogramming/eoh/common/graph/IGraph.java:46-54 | A cell prints as a single space exactly when it is empty or holds 0 |
| GraphText.PrintRowLayout | Project/Code/FinalProject/Common/src/main/java/org/hit/internetprogramming/eoh/common/graph/IGraph.java:46-59 | A `printGraph` line of one-character cells has length 2n + 1 and brackets at both ends. Every second character after `[` reads back the row, and a single space stands between two cells |
| GraphText.ListRowLayout | Project/Code/FinalProject/Common/src/main/java/org/hit/internetprogramming/eoh/common/graph/IGraph.java:61-74 | A `toString` row of one-character cells has length 3n and brackets at both ends. Every third character after `[` reads back the row, and `, ` stands between two cells |
| GraphText.PrintGraphExample | Project/Code/FinalProject/Common/src/main/java/org/hit/internetprogramming/eoh/common/graph/IGraph.java:49-54 | The documented matrix prints as `[  1  ]`, `[1 1 1]`, `[    1]` on three lines |
| GraphText.ToStringExample | Project/Code/FinalProject/Common/src/main/java/org/hit/internetprogramming/eoh/common/graph/IGraph.java:64-69 | The documented matrix renders as `[[ , 1,  ],` `[1, 1, 1],` `[ ,  , 1]]` |
| Paths.Extend | Project/Code/FinalProject/Server/src/test/java/org/hit/internetprogramming/eoh/server/graph/algorithm/FindPathsTest.java:513-537 | Backtracking from a partial simple path yields exactly the simple paths to the target that extend it |
| Paths.ExtendVia | Project/Code/FinalProject/Server/src/test/java/org/hit/internetprogramming/eoh/server/graph/algorithm/FindPathsTest.java:513-537 | Trying the listed reachable cells in turn yields exactly the simple paths that continue through one of them |
| Paths.AllPaths | Project/Code/FinalProject/Server/src/test/java/org/hit/internetprogramming/eoh/server/graph/algorithm/FindPathsTest.java:612-651 | The depth-first search returns exactly the simple root-to-target paths over the reachable relation |
| Paths.ShortestPaths | Project/Code/FinalProject/Server/src/test/java/org/hit/internetprogramming/eoh/server/graph/algorithm/FindPathsTest.java:206-229 | The reference set is exactly the simple paths that no simple path to the same target beats in length |
| Paths.CheckInput | Project/Code/FinalProject/Server/src/test/java/org/hit/internetprogramming/eoh/server/graph/algorithm/FindPathsTest.java:112-132 | The input is too large exactly when the graph has more than 2500 cells, and this check comes first; the input passes exactly when it is small enough and the root and target lie in the matrix |
| Paths.FindAllPaths | Project/Code/FinalProject/Server/src/test/java/org/hit/internetprogramming/eoh/server/graph/algorithm/FindPathsTest.java:420-463 | Fails exactly when the input checks fail, with the too-large error exactly for oversized graphs; otherwise returns exactly the simple paths |
| Layers.SearchOutcome | Project/Code/FinalProject/Server/src/test/java/org/hit/internetprogramming/eoh/server/graph/algorithm/FindPathsTest.java:351-383 | When the search stops, with the frontier empty or the target seen, the frontier paths that end at the target are exactly the shortest simple walks to it |
| ShortestSearch.Round | Project/Code/FinalProject/Server/src/test/java/org/hit/internetprogramming/eoh/server/graph/algorithm/FindPathsTest.java:206-229 | One round takes the frontier and seen cells of round k to those of round k + 1 |
| ShortestSearch.BreadthFirst | Project/Code/FinalProject/Server/src/test/java/org/hit/internetprogramming/eoh/server/graph/algorithm/FindPathsTest.java:385-414 | Over any edge set, the search returns exactly the tied shortest simple walks from the root to a different target |
| ShortestSearch.FindShortestPaths | Project/Code/FinalProject/Server/src/test/java/org/hit/internetprogramming/eoh/server/graph/algorithm/FindPathsTest.java:45-132 | Fails exactly when the input checks fail, with their error; otherwise returns exactly the shortest simple paths to the target (none when it is cut off or is the root) |
| PathFacts.PathCellsValued | Project/Code/FinalProject/Server/src/test/java/org/hit/internetprogramming/eoh/server/graph/algorithm/FindPathsTest.java:134-156 | A returned path starts at the root, ends at the target, holds a value in every cell, and moves one step of the kind at a time |
| PathFacts.ShortestWithinAll | Project/Code/FinalProject/Server/src/test/java/org/hit/internetprogramming/eoh/server/graph/algorithm/FindPathsTest.java:206-229 | Every shortest path is also among all paths |
| PathFacts.ShortestTied | Project/Code/FinalProject/Server/src/test/java/org/hit/internetprogramming/eoh/server/graph/algorithm/FindPathsTest.java:351-383 | All returned shortest paths have the same number of cells |
| PathFacts.ShortestEmptyIffNone | Project/Code/FinalProject/Server/src/test/java/org/hit/internetprogramming/eoh/server/graph/algorithm/FindPathsTest.java:45-110 | The shortest search finds nothing exactly when the all-paths search finds nothing |
| PathFacts.NeighbourTarget | Project/Code/FinalProject/Server/src/test/java/org/hit/internetprogramming/eoh/server/graph/algorithm/FindPathsTest.java:304-349 | A valued neighbour of the root has the single shortest path [root, target] |
| PathFacts.IsolatedTarget | Project/Code/FinalProject/Server/src/test/java/org/hit/internetprogramming/eoh/server/graph/algorithm/FindPathsTest.java:420-463 | A target that no valued cell steps to has no path at all, shortest or not |
| FindPathsCases.StandardCutOffFromTest | Project/Code/FinalProject/Server/src/test/java/org/hit/internetprogramming/eoh/server/graph/algorithm/FindPathsTest.java:49-53 | The case grid is this test matrix with its zeroes replaced by empty cells |
| FindPathsCases.CrossCutOffFromTest | Project/Code/FinalProject/Server/src/test/java/org/hit/internetprogramming/eoh/server/graph/algorithm/FindPathsTest.java:72-75 | The case grid is this test matrix with its zeroes replaced by empty cells |
| FindPathsCases.RegularCutOffFromTest | Project/Code/FinalProject/Server/src/test/java/org/hit/internetprogramming/eoh/server/graph/algorithm/FindPathsTest.java:94-97 | The case grid is this test matrix with its zeroes replaced by empty cells |
| FindPathsCases.StandardNeighbourFromTest | Project/Code/FinalProject/Server/src/test/java/org/hit/internetprogramming/eoh/server/graph/algorithm/FindPathsTest.java:308-312 | The case grid is this test matrix with its zeroes replaced by empty cells |
| FindPathsCases.CrossNeighbourFromTest | Project/Code/FinalProject/Server/src/test/java/org/hit/internetprogramming/eoh/server/graph/algorithm/FindPathsTest.java:332-335 | The case grid is this test matrix with its zeroes replaced by empty cells |
| FindPathsCases.StandardNoPath | Project/Code/FinalProject/Server/src/test/java/org/hit/internetprogramming/eoh/server/graph/algorithm/FindPathsTest.java:45-66 | The STANDARD 5 x 5 test matrix has no path from (0, 0) to (2, 2), for either search |
| FindPathsCases.CrossNoPath | Project/Code/FinalProject/Server/src/test/java/org/hit/internetprogramming/eoh/server/graph/algorithm/FindPathsTest.java:68-88 | The CROSS 4 x 4 test matrix has no path from (0, 0) to (3, 3), for either search |
| FindPathsCases.RegularNoPath | Project/Code/FinalProject/Server/src/test/java/org/hit/internetprogramming/eoh/server/graph/algorithm/FindPathsTest.java:90-110 | The REGULAR 4 x 4 test matrix has no path from (0, 0) to (3, 3) |
| FindPathsCases.StandardNeighbourPath | Project/Code/FinalProject/Server/src/test/java/org/hit/internetprogramming/eoh/server/graph/algorithm/FindPathsTest.java:304-326 | The shortest result from (1, 2) to (2, 2) is exactly [(1, 2), (2, 2)] |
| FindPathsCases.CrossNeighbourPath | Project/Code/FinalProject/Server/src/test/java/org/hit/internetprogramming/eoh/server/graph/algorithm/FindPathsTest.java:328-349 | The shortest result from (1, 3) to (2, 2) is exactly [(1, 3), (2, 2)] |
| FindPathsCases.SizeGuardCase | Project/Code/FinalProject/Server/src/test/java/org/hit/internetprogramming/eoh/server/graph/algorithm/FindPathsTest.java:112-132 | An all-empty 51 x 51 matrix is refused as too large by the input checks and by `findAllPaths` |
| FindPathsCases.ShortestSizeGuard | Project/Code/FinalProject/Server/src/test/java/org/hit/internetprogramming/eoh/server/graph/algorithm/FindPathsTest.java:112-132 | The tested call, `findShortestPaths((3, 3))` on an all-empty 51 x 51 matrix, fails with the too-large error |
| TestSupport.NullsForZeroesUnique | Project/Code/FinalProject/Server/src/test/java/org/hit/internetprogramming/eoh/server/graph/algorithm/FindPathsTest.java:679-696 | A grid that agrees cell by cell with the replaced test matrix is exactly the grid that matrix stands for |
| TestSupport.ZeroToNull | Project/Code/FinalProject/Server/src/test/java/org/hit/internetprogramming/eoh/server/graph/algorithm/FindPathsTest.java:689-691 | A cell ends up empty exactly when it was empty or held 0; a kept value is unchanged |
| TestSupport.NullsForZeroes | Project/Code/FinalProject/Server/src/test/java/org/hit/internetprogramming/eoh/server/graph/algorithm/FindPathsTest.java:679-696 | The grid a test matrix stands for: same shape, empty exactly where the matrix holds 0, the value elsewhere |
| TestSupport.ReplaceZeroesWithNulls | Project/Code/FinalProject/Server/src/test/java/org/hit/internetprogramming/eoh/server/graph/algorithm/FindPathsTest.java:686-696 | In place: every 0 becomes empty, every other cell keeps its value, and the same array is returned; no 0 remains, and a matrix without zeroes is left unchanged |
| TestSupport.ZeroFreeCellKept | Project/Code/FinalProject/Server/src/test/java/org/hit/internetprogramming/eoh/server/graph/algorithm/FindPathsTest.java:689-691 | A cell holding a value other than 0 is left as it is, so a matrix without zeroes comes back unchanged |
| TestSupport.PathsValidation | Project/Code/FinalProject/Server/src/test/java/org/hit/internetprogramming/eoh/server/graph/algorithm/FindPathsTest.java:24-39 | The check passes exactly when both collections have the same size and every expected path is returned |
| TestSupport.ValidationIsSetEquality | Project/Code/FinalProject/Server/src/test/java/org/hit/internetprogramming/eoh/server/graph/algorithm/FindPathsTest.java:24-39 | For lists without repeats, passing the check is the same as holding the same set of paths |
| Submarines.IsSubmarine | Project/Code/FinalProject/Server/src/main/java/org/hit/internetprogramming/eoh/server/action/impl/FindSubmarines.java:25-29 | A filled part obeying rules 1 to 3 has at least four cells |
| Submarines.SubmarineHasFourCells | Project/Code/FinalProject/Server/src/main/java/org/hit/internetprogramming/eoh/server/action/impl/FindSubmarines.java:25-29 | A part obeying rules 1 to 3 has at least four cells |
| Submarines.RectangleIsSubmarine | Project/Code/FinalProject/Server/src/main/java/org/hit/internetprogramming/eoh/server/action/impl/FindSubmarines.java:25-29 | A filled rectangle of at least 2 x 2 cells obeys rules 1 to 3 |
| Submarines.SegmentIsNotSubmarine | Project/Code/FinalProject/Server/src/main/java/org/hit/internetprogramming/eoh/server/action/impl/FindSubmarines.java:26-27 | A single-row segment breaks rule 2, whatever its length |
| Submarines.Apart | Project/Code/FinalProject/Server/src/main/java/org/hit/internetprogramming/eoh/server/action/impl/FindSubmarines.java:30-31 | Two submarines at least one empty square apart share no cell |
| Submarines.Separated | Project/Code/FinalProject/Server/src/main/java/org/hit/internetprogramming/eoh/server/action/impl/FindSubmarines.java:30-31 | In an answer that obeys rule 4, any two different submarines share no cell |
| Submarines.ApartSymmetric | Project/Code/FinalProject/Server/src/main/java/org/hit/internetprogramming/eoh/server/action/impl/FindSubmarines.java:30-31 | Rule 4 holds for two submarines regardless of their order |
| Submarines.ApartHasNoAdjacentCell | Project/Code/FinalProject/Server/src/main/java/org/hit/internetprogramming/eoh/server/action/impl/FindSubmarines.java:30-31 | Two apart submarines share no cell and have no cell adjacent in any of the 8 directions |
| Submarines.Execute | Project/Code/FinalProject/Server/src/main/java/org/hit/internetprogramming/eoh/server/action/impl/FindSubmarines.java:38-47 | NOT_FOUND with the "No graph was initialized" message exactly when no graph is stored for the client; otherwise OK with the submarines of the stored graph; the HTTP flag is kept in both cases |
| Submarines.StoredGraphIsFound | Project/Code/FinalProject/Server/src/main/java/org/hit/internetprogramming/eoh/server/action/impl/FindSubmarines.java:41-46 | Once a graph is stored for the client, the answer is OK with that graph's submarines |
| Submarines.OtherClientsIrrelevant | Project/Code/FinalProject/Server/src/main/java/org/hit/internetprogramming/eoh/server/action/impl/FindSubmarines.java:41 | Graphs stored for other clients do not change a client's answer |

## Left out

- `FindPaths` itself is not part of this model. Its searches are modelled from the test assertions, by two routes:
  - the all-paths search as depth-first backtracking;
  - the shortest search as a breadth-first method over sets of frontier paths.

  Neither is a reconstruction of the Java bodies.
- Result order is not modelled. The tests compare results as unordered collections, and the model returns sets.
- The concrete answers of these `FindPathsTest` cases are not proved, because proving them means enumerating paths on the test matrices, which is beyond the verifier. The general facts they illustrate are proved instead. The cases are:
  - `findShortestPaths`, one path: lines 134-156, 158-180 and 182-204, and with another root 256-278 and 280-302;
  - `findShortestPaths`, two short paths out of three: lines 206-229 and 231-254;
  - `findShortestPaths`, six and three short paths out of about a million: lines 351-383 and 385-414;
  - `findAllPaths`, one path: lines 465-487 and 489-511, and with another root 564-586 and 588-610;
  - `findAllPaths`, three paths: lines 513-537 and 539-562, and with another root 612-631 and 633-651;
  - `findAllPaths`, the count of 1,138,020 paths: lines 653-677.
- Paths.CheckInput: two behaviours the tests do not pin are chosen here.
  - A root or target outside the matrix is reported as `VertexOutOfRange`.
  - A target equal to the root has no path, because a path needs at least two cells.
- Paths.AllPaths: a root without a value gives no path for either search, because every step needs a value at both ends. No test uses an empty root, and the source of `FindPaths` is not part of this model.
- Mat.NewInstance: the sizes are natural numbers. For a negative size, `newInstance(int rows, int cols)` reaches the fallback constructor at MatrixType.java:36, which lies outside the try block, so its failure would propagate. That case is not modelled.
- TestSupport.ReplaceZeroesWithNulls: Java throws a NullPointerException when a cell is already empty, because the comparison at FindPathsTest.java:689 unboxes it. A second run on the same matrix hits this case. The model requires that no cell is empty on entry, rather than modelling the exception, so it says nothing about a second run.
- Paths.CheckInput: the size guard is applied to both searches. The tests exercise it only for `findShortestPaths`.
- GraphAdapter.GetGraphSize: rows x cols is an unbounded integer. Java's 32-bit `int` product overflows for matrices of at least 2^31 cells, and that overflow is not modelled. For example, 65536 x 65536 wraps to 0.
- Mat.NewInstance: for zero rows the column count is not recorded, because the grid stores its rows only.
- Mat.NewInstance: reflection and logging are not modelled. The constructor failure is a parameter.
- GraphText.PrintGraph: `IMatrix.printMatrix` is not part of this model, so these rendering choices are assumed:
  - lines are separated by a single `\n`;
  - there is no trailing line break;
  - a matrix with no rows prints as the empty text;
  - a value prints in Java's decimal form;
  - an empty (null) cell prints as a space, like a 0, although the documentation names only 0's.
- GraphText.GraphToString: `IMatrix.toString` is not part of this model, so these rendering choices are assumed:
  - rows are separated by `,` and a single `\n`;
  - there is no trailing line break;
  - a matrix with no rows renders as `[]`;
  - a value prints in Java's decimal form;
  - an empty (null) cell prints as a space, like a 0.
- TestSupport.ReplaceZeroesWithNulls: it works on a rectangular `array2`. Java's jagged `Integer[][]` is not modelled.
- The submarine search (`Submarines`, `ConnectedComponents`, `DFSVisit`) is not part of this model. `Submarines.Execute` takes its result as a function parameter, and the four documented rules are predicates with lemmas.
- Submarines.IsSubmarine: checks only rules 1 to 3 on a given set of cells. It does not require that the set is one whole connected group of filled cells, as the component search would deliver. For example, two separate dominoes together meet the predicate, and so does a 2 x 2 corner of a larger filled block. Connectivity and maximality come from the component search (`FindConnectedComponents`), which is not part of this model.
- Submarines.RectangleIsSubmarine: for the same reason it does not require the cells around the rectangle to be empty. It shows that a filled rectangle meets rules 1 to 3, not that the component search reports it.
- The rules are stated as written in `FindSubmarines`, and connectivity is not added:
  - rules 1 and 2 each ask for one adjacent pair;
  - rule 3 asks each cell of a diagonal pair to have a horizontal and a vertical partner;
  - rule 4 asks for Chebyshev distance of at least 2 between submarines.
- The `Graphs` registry is a map from client to graph. `Response` is a small datatype.
- The `HttpStatus` codes are assumed to be the standard 404 and 200, because `HttpStatus` is not part of this model.
- `ActionThreadService` is left out because it is thread-pool concurrency.
- The console client, its file I/O and web calls are left out as user interface and I/O.
- The older workspace's `PrintGraph` action is left out, because it delegates to a graph class that is not part of this model.
- The Jackson serialisation annotations of `IGraph` are left out.
