/**
 * Vertex-weighted undirected graphs as values, and the notions the two entry points are about:
 * cliques, independent sets, their weights, and the complement graph.
 */
module Graphs {

  /**
   * Vertices 0..n-1; an undirected edge {i, j} is present as both (i, j) and (j, i);
   * weights[v] is the weight of vertex v.
   */
  datatype WGraph = WGraph(n: nat, edges: set<(nat, nat)>, weights: seq<int>)

  predicate Adjacent(G: WGraph, i: nat, j: nat) {
    (i, j) in G.edges
  }

  /** Undirected, without self-loops, edges between vertices only, one weight per vertex. */
  ghost predicate Wf(G: WGraph) {
    && |G.weights| == G.n
    && (forall e | e in G.edges :: e.0 < G.n && e.1 < G.n && e.0 != e.1)
    && (forall i: nat, j: nat | Adjacent(G, i, j) :: Adjacent(G, j, i))
  }

  ghost predicate IsVertexSet(G: WGraph, S: set<nat>) {
    forall v | v in S :: v < G.n
  }

  /** Every two distinct members of S are joined by an edge. */
  ghost predicate IsClique(G: WGraph, S: set<nat>) {
    IsVertexSet(G, S) && forall i, j | i in S && j in S && i != j :: Adjacent(G, i, j)
  }

  /** No two distinct members of S are joined by an edge. */
  ghost predicate IsIndependent(G: WGraph, S: set<nat>) {
    IsVertexSet(G, S) && forall i, j | i in S && j in S && i != j :: !Adjacent(G, i, j)
  }

  /** Total weight of the vertices of S (members outside the graph weigh nothing). */
  ghost function Weight(w: seq<int>, S: set<nat>): (total: int)
    decreases S
  {
    if S == {} then 0
    else
      var v :| v in S;
      (if v < |w| then w[v] else 0) + Weight(w, S - {v})
  }

  ghost predicate IsMaxWeightClique(G: WGraph, S: set<nat>) {
    IsClique(G, S) && forall T | IsClique(G, T) :: Weight(G.weights, T) <= Weight(G.weights, S)
  }

  ghost predicate IsMaxWeightIndependentSet(G: WGraph, S: set<nat>) {
    IsIndependent(G, S) && forall T | IsIndependent(G, T) :: Weight(G.weights, T) <= Weight(G.weights, S)
  }

  /** The graph on the same weighted vertices whose edges join exactly the distinct non-adjacent pairs of G. */
  ghost function Complement(G: WGraph): (C: WGraph)
    ensures Wf(G) ==> Wf(C)
    ensures forall i: nat, j: nat | i < G.n && j < G.n && i != j :: Adjacent(C, i, j) <==> !Adjacent(G, i, j)
    ensures forall i: nat | i < G.n :: !Adjacent(C, i, i)
  {
    WGraph(G.n, set i: nat, j: nat | i < G.n && j < G.n && i != j && !Adjacent(G, i, j) :: (i, j), G.weights)
  }

  /** A set is a clique of the complement exactly when it is independent in G. */
  lemma CliqueOfComplementIffIndependent(G: WGraph, S: set<nat>)
    ensures IsClique(Complement(G), S) <==> IsIndependent(G, S)
  {
  }

  /**
   * A maximum-weight clique of the complement is a maximum-weight independent set of G, and back:
   * the reduction the independent-set entry point relies on.
   */
  lemma MaxCliqueOfComplementIffMaxIndependent(G: WGraph, S: set<nat>)
    ensures IsMaxWeightClique(Complement(G), S) <==> IsMaxWeightIndependentSet(G, S)
  {
    forall T ensures IsClique(Complement(G), T) <==> IsIndependent(G, T) {
      CliqueOfComplementIffIndependent(G, T);
    }
  }
}
