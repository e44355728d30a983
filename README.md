# Maximum-weight clique wrapper, modelled in Dafny

The repository wraps the cliquer library behind two Python functions:
`find_max_weighted_clique` and `find_max_weighted_independent_set`. Each takes an n×n uint8
adjacency matrix, of which only the strict upper triangle is read, and n int32 vertex weights.
Each returns a boolean membership vector of length n. The wrapper does its own work in two
places:

- the C++ extension module (`src/max_weighted_clique_module.cpp`) checks the shapes, clamps the
  weight bounds, builds a cliquer `graph_t` from the upper triangle, calls the search, and writes
  a 0/1 vector;
- the Python layer (`src/clique_python_wrapper/clique.py`) checks its inputs, fixes the search
  parameters, turns the 0/1 vector into booleans, and reduces independent set to clique by
  inverting the upper triangle.

The model keeps that structure:

- `base.dfy` (`Base`): uint8 and int32 as subset types, the exceptions, `Option` and `Result`.
- `graphs.dfy` (`Graphs`): weighted undirected graphs as values, with cliques, independent sets,
  total weight and the complement graph. It proves that a (maximum-weight) clique of the
  complement is exactly a (maximum-weight) independent set.
- `cliquer.dfy` (`Cliquer`): `graph_t` as a class with adjacency bitsets (`array2<bool>`) and a
  weight array, updated in place by `graph_new` and `GRAPH_ADD_EDGE`. The search
  `clique_find_single` is the type `Engine`: a function the entry points receive as a parameter.
  Nothing is assumed about what it returns.
- `clique_module.dfy` (`CliqueModule`): the C++ file. Its loops are methods with loop
  invariants, proved against the specification graph `GraphOf(M, w)`.
- `clique.dfy` (`CliqueWrapper`): the Python file. The inverted matrix is built in place, as
  numpy's masked assignments do.

The main results:

- the graph built from M has the edge {i, j}, for i < j, exactly when `M[i][j] > 0`;
- it has no self-loops and ignores the diagonal and lower triangle;
- the inverted matrix's graph is the complement of M's graph;
- so whatever clique, or maximum-weight clique, the engine returns for the complement, the
  independent-set entry point marks an independent set, or a maximum-weight independent set, of
  M's graph.

Behaviour of the code that is easy to miss, and that the model reproduces as written:

- On a non-square matrix with more rows than columns, the independent-set entry point does not
  reach the clique guard. `np.tril_indices(rows)` yields the column index `rows - 1`, which is out
  of bounds, so numpy raises an IndexError. With fewer rows than columns, the clique guard's
  squareness assert fires, as it does for the clique entry point.
- With n = 0 the Python guard does not return an empty vector: `vertex_weights.min()` of an empty
  array raises numpy's ValueError.
- The C++ module's own code throws only for the two shape errors. The `ASSERT(graph_test(...))`
  in `MatrixToGraph` belongs to cliquer and is left out; in cliquer it also rejects non-positive
  weights, by aborting the process.
- The maximum weight is clamped to the number of vertices (`MIN(iCols, iMaxWeight)`), a bound on
  weight compared with a count of vertices. The Python layer always passes 0, which the clamp
  leaves at 0 (`DefaultWindow`).

## Model

Two helpers have no row of their own. `CliqueWrapper.GuardError`, the guard's exceptions in order, is covered by the rows for `CliqueWrapper.GuardAccepts` and `CliqueWrapper.FindMaxWeightedClique`. `CliqueWrapper.ToBool`, the elementwise `> 0`, is covered by the row for `CliqueWrapper.FindMaxWeightedClique`.

| member | source | states |
|---|---|---|
| `Graphs.Complement` | src/clique_python_wrapper/clique.py:33-39 | the complement of a well-formed graph is well-formed; for distinct vertices an edge of the complement is exactly a non-edge of the graph, and no vertex is adjacent to itself |
| `Graphs.CliqueOfComplementIffIndependent` | src/clique_python_wrapper/clique.py:33-39 | a set is a clique of the complement if and only if it is an independent set of the graph |
| `Graphs.MaxCliqueOfComplementIffMaxIndependent` | src/clique_python_wrapper/clique.py:33-46 | a set is a maximum-weight clique of the complement if and only if it is a maximum-weight independent set of the graph |
| `Cliquer.Graph.Model` | src/max_weighted_clique_module.cpp:60-72 | the bitsets of a valid `graph_t` describe an undirected, loop-free graph on its n vertices with one weight each |
| `Cliquer.Graph.constructor` | src/max_weighted_clique_module.cpp:60 | `graph_new(n)` gives n vertices and no edges, with fresh bitsets and a fresh weight array |
| `Cliquer.Graph.AddEdge` | src/max_weighted_clique_module.cpp:65 | sets exactly the two bits (i, j) and (j, i); every other bit and the graph's validity are kept |
| `CliqueModule.GraphOfEdge` | src/max_weighted_clique_module.cpp:62-68 | for i < j, {i, j} is an edge in both orientations exactly when `M[i][j] > 0`; no vertex is adjacent to itself |
| `CliqueModule.GraphOfWf` | src/max_weighted_clique_module.cpp:62-72 | the graph of a square matrix is undirected and loop-free, with one weight per vertex |
| `CliqueModule.GraphOfReadsUpperTriangleOnly` | src/max_weighted_clique_module.cpp:62-64 | two matrices that agree strictly above the diagonal give the same graph, whatever their diagonal and lower triangle hold |
| `CliqueModule.MatrixToGraph` | src/max_weighted_clique_module.cpp:58-78 | the nested loops and the weight loop build a valid graph equal to `GraphOf(M, w)`: n = \|w\| vertices, weight i is `w[i]`, and only the edges from non-zero upper entries |
| `CliqueModule.FindCliques` | src/max_weighted_clique_module.cpp:81-107 | the result is the engine's answer on the graph, the two weight bounds and the maximal-only flag; the two list-size arguments have no effect |
| `CliqueModule.EffectiveMinWeight` | src/max_weighted_clique_module.cpp:133 | the effective minimum is non-negative, is at least the requested minimum, and is either 0 or the requested minimum |
| `CliqueModule.EffectiveMaxWeight` | src/max_weighted_clique_module.cpp:134 | the effective maximum is at most n and at most the requested maximum, and is one of the two |
| `CliqueModule.DefaultWindow` | src/max_weighted_clique_module.cpp:133-134 | with the bounds 0 and 0 both effective bounds stay 0 |
| `CliqueModule.MembershipVector` | src/max_weighted_clique_module.cpp:157-168 | the output has length n, and entry j is 1 when j is in the returned set and 0 otherwise; members ≥ n have no effect |
| `CliqueModule.FindMaxWeightedClique` | src/max_weighted_clique_module.cpp:109-175 | a weight-length mismatch raises "Non-consistent dimensions…"; otherwise a non-square matrix raises "Adjacency matrix is not square"; otherwise the output marks exactly the engine's vertices on `GraphOf(M, w)` with the clamped bounds |
| `CliqueWrapper.Min` | src/clique_python_wrapper/clique.py:18 | `min()` of a non-empty vector is one of its elements and no larger than any of them |
| `CliqueWrapper.GuardAccepts` | src/clique_python_wrapper/clique.py:16-19 | the guard passes exactly when the matrix is square, n equals the weight count, n > 0, and every weight is positive |
| `CliqueWrapper.FindMaxWeightedClique` | src/clique_python_wrapper/clique.py:6-30 | the guard's errors come in order (square, then length, then numpy's empty-`min()` error, then positive weights); on success the boolean vector of length n marks exactly the engine's vertices for min 0, max 0, maximal-only and 1000 cliques, so it selects the engine's set when that set holds only vertices |
| `CliqueWrapper.InvertedGraphIsComplement` | src/clique_python_wrapper/clique.py:42-45 | the graph of the inverted matrix is the complement of the graph of M |
| `CliqueWrapper.InvertedReadsUpperTriangleOnly` | src/clique_python_wrapper/clique.py:43-45 | the inverted matrix depends only on the strict upper triangle of M |
| `CliqueWrapper.InvertAdjacency` | src/clique_python_wrapper/clique.py:42-45 | a matrix of M's shape that is 1 where i < j and `M[i][j] == 0`, and 0 elsewhere; a matrix with more rows than columns raises IndexError |
| `CliqueWrapper.FindMaxWeightedIndependentSet` | src/clique_python_wrapper/clique.py:33-46 | fails exactly as the clique entry point on M, except for the IndexError of a matrix with more rows than columns; on success it marks the engine's answer on the complement of M's graph, and a clique (maximum-weight clique) of the complement comes back as an independent set (maximum-weight independent set) of M's graph |

## Left out

- The cliquer search (`clique_find_single`) is not part of this model. cliquer is a separate GPL C library, so its search is a function parameter with no promised properties. No optimality or tie-break is claimed, and no test expectation that depends on it is modelled.
- `graph_new`'s internals are not part of this model. The constructor promises no initial weights, because `MatrixToGraph` overwrites every one.
- The Boost.Python and numpy_boost registration, the exception translator and Python's conversion of exceptions are left out. They are marshalling code; errors are `Result` values carrying the message text.
- The dtype assertions are left out. The types `Byte` and `Int32` enforce them.
- `graph_free`, `set_free` and the `ASSERT(graph_test(...))` call are left out. They are memory management and cliquer's own validation of the graph it was given.
- `CliqueModule.FindMaxWeightedClique`: given a weight ≤ 0, or n = 0 (cliquer's `graph_new` aborts), the source aborts inside cliquer, while the model returns a result. The weight case aborts at the `ASSERT(graph_test(...))` in `MatrixToGraph`. Through the Python entry points neither can happen: the Python guard raises ValueError for n = 0 and rejects such weights first.
- The dead variables (`iNumCliquesReturned`, the NULL option fields) are left out, because they have no behaviour.
- Python run with `-O` drops `assert` statements. The model keeps the asserts.
- `CliqueModule.FindMaxWeightedClique`: `int iCols = shape()[0]` narrows the shape to a C `int`. The model uses the unbounded length, so matrices with 2^31 or more rows are not modelled.
- The C `int` flag `iOnlyMaximal` (TRUE/FALSE) is a `bool`, because only its truth value is passed on.
