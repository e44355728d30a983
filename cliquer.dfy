/**
 * The part of the cliquer library the wrapper touches: its graph type `graph_t`, built with
 * `graph_new` and `GRAPH_ADD_EDGE`, and the search `clique_find_single`, which is not modelled
 * and appears here only as the type of the function the wrapper is handed.
 */
module Cliquer {
  import opened Graphs

  /** A `graph_t`: n vertices, one adjacency bitset per vertex (row v of `edges`), and the vertex weights. */
  class Graph {
    const n: nat
    const edges: array2<bool>
    const weights: array<int>

    /** The shape of the bitsets, symmetry (an edge is stored in both endpoints' sets) and no self-loops. */
    ghost predicate Valid()
      reads this, edges
    {
      && edges.Length0 == n && edges.Length1 == n && weights.Length == n
      && (forall i, j | 0 <= i < n && 0 <= j < n :: edges[i, j] == edges[j, i])
      && (forall i | 0 <= i < n :: !edges[i, i])
    }

    /** The graph as a value, as the search sees it. */
    function Model(): (G: WGraph)
      reads this, edges, weights
      requires Valid()
      ensures Wf(G)
    {
      WGraph(n, set i: nat, j: nat | i < n && j < n && edges[i, j] :: (i, j), weights[..])
    }

    /** `graph_new(n)`: n vertices and no edges. The initial weights are left unspecified. */
    constructor (n: nat)
      ensures Valid() && this.n == n
      ensures fresh(edges) && fresh(weights)
      ensures forall i, j | 0 <= i < n && 0 <= j < n :: !edges[i, j]
    {
      this.n := n;
      edges := new bool[n, n]((i, j) => false);
      weights := new int[n](v => 1);
    }

    /** `GRAPH_ADD_EDGE(g, i, j)`: adds j to the neighbour set of i and i to that of j. */
    method AddEdge(i: nat, j: nat)
      requires Valid() && i < n && j < n && i != j
      modifies edges
      ensures Valid()
      ensures forall a, b | 0 <= a < n && 0 <= b < n ::
                edges[a, b] == (old(edges[a, b]) || (a == i && b == j) || (a == j && b == i))
    {
      edges[i, j] := true;
      edges[j, i] := true;
    }
  }

  /**
   * `clique_find_single(g, min_weight, max_weight, maximal, opts)`: the search engine, given as a
   * function of the graph, the weight bounds and the maximal-only flag. Nothing is assumed about
   * what it returns.
   */
  type Engine = (WGraph, int, int, bool) -> set<nat>
}
