/**
 * The C++ extension module: building a cliquer graph from the upper triangle of an adjacency
 * matrix, the parameter checks and clamps of `find_max_weighted_clique`, the call into the
 * search, and the 0/1 membership vector it returns.
 */
module CliqueModule {
  import opened Base
  import opened Graphs
  import opened Cliquer

  const NonConsistentDimensions := "Non-consistent dimensions of weights and adjacency matrix"
  const NotSquare := "Adjacency matrix is not square"

  /** Entry (i, j) lies strictly above the diagonal and is non-zero: the only entries MatrixToGraph consults. */
  ghost predicate UpperEdge(M: array2<Byte>, i: int, j: int)
    reads M
  {
    0 <= i < j < M.Length0 && j < M.Length1 && M[i, j] > 0
  }

  /** The graph the module builds from M and the weights w: {i, j} is an edge when M[min, max] > 0. */
  ghost function GraphOf(M: array2<Byte>, w: seq<int>): (G: WGraph)
    reads M
  {
    WGraph(|w|, set i: nat, j: nat | i < |w| && j < |w| && (UpperEdge(M, i, j) || UpperEdge(M, j, i)) :: (i, j), w)
  }

  ghost predicate IsSquareOf(M: array2<Byte>, n: nat) {
    M.Length0 == n && M.Length1 == n
  }

  /** For i < j, the pair is an edge (in either orientation) exactly when M[i, j] > 0; there are no self-loops. */
  lemma GraphOfEdge(M: array2<Byte>, w: seq<int>, i: nat, j: nat)
    requires IsSquareOf(M, |w|) && i < |w| && j < |w|
    ensures i < j ==> (Adjacent(GraphOf(M, w), i, j) <==> M[i, j] > 0)
    ensures i < j ==> (Adjacent(GraphOf(M, w), j, i) <==> M[i, j] > 0)
    ensures !Adjacent(GraphOf(M, w), i, i)
  {
  }

  lemma GraphOfWf(M: array2<Byte>, w: seq<int>)
    requires IsSquareOf(M, |w|)
    ensures Wf(GraphOf(M, w))
  {
  }

  /** Diagonal and lower-triangle entries are never read: matrices that agree above the diagonal give the same graph. */
  lemma GraphOfReadsUpperTriangleOnly(M1: array2<Byte>, M2: array2<Byte>, w: seq<int>)
    requires IsSquareOf(M1, |w|) && IsSquareOf(M2, |w|)
    requires forall i, j | 0 <= i < j < |w| :: M1[i, j] == M2[i, j]
    ensures GraphOf(M1, w) == GraphOf(M2, w)
  {
    assert forall i, j | 0 <= i < |w| && 0 <= j < |w| :: UpperEdge(M1, i, j) == UpperEdge(M2, i, j);
  }

  /** `MatrixToGraph`: one edge per non-zero entry strictly above the diagonal, then the weights copied over. */
  method MatrixToGraph(adjacencyMatrix: array2<Byte>, weights: array<Int32>) returns (g: Graph)
    requires IsSquareOf(adjacencyMatrix, weights.Length)
    ensures g.Valid() && g.Model() == GraphOf(adjacencyMatrix, weights[..])
  {
    var M := adjacencyMatrix;
    var n := weights.Length;
    g := new Graph(n);
    var i := 0;
    while i < M.Length0
      invariant 0 <= i <= n
      invariant g.Valid() && g.n == n
      invariant forall a, b | 0 <= a < n && 0 <= b < n ::
                  g.edges[a, b] <==> (UpperEdge(M, a, b) && a < i) || (UpperEdge(M, b, a) && b < i)
    {
      var j := i + 1;
      while j < M.Length1
        invariant i + 1 <= j <= n
        invariant g.Valid() && g.n == n
        invariant forall a, b | 0 <= a < n && 0 <= b < n ::
                    g.edges[a, b] <==> ((UpperEdge(M, a, b) && (a < i || (a == i && b < j)))
                                     || (UpperEdge(M, b, a) && (b < i || (b == i && a < j))))
      {
        if M[i, j] > 0 {
          g.AddEdge(i, j);
        }
        j := j + 1;
      }
      i := i + 1;
    }
    var k := 0;
    while k < weights.Length
      invariant 0 <= k <= n
      invariant g.Valid() && g.n == n
      invariant forall a, b | 0 <= a < n && 0 <= b < n ::
                  g.edges[a, b] <==> UpperEdge(M, a, b) || UpperEdge(M, b, a)
      invariant forall v | 0 <= v < k :: g.weights[v] == weights[v]
    {
      g.weights[k] := weights[k];
      k := k + 1;
    }
    assert g.weights[..] == weights[..];
  }

  /** `FindCliques`: one call of the search; the two list-size arguments are not passed on. */
  method FindCliques(g: Graph, iMinWeight: int, iMaxWeight: int, bOnlyMaximal: bool,
                     iMaxNumCliques: int, iCliqueListLength: int, search: Engine)
    returns (maxWeightedClique: set<nat>)
    requires g.Valid()
    ensures maxWeightedClique == search(g.Model(), iMinWeight, iMaxWeight, bOnlyMaximal)
  {
    maxWeightedClique := search(g.Model(), iMinWeight, iMaxWeight, bOnlyMaximal);
  }

  /** `MAX(0, iMinWeight)`: the smallest non-negative value not below the requested minimum. */
  function EffectiveMinWeight(iMinWeight: Int32): (r: Int32)
    ensures r >= 0 && r >= iMinWeight
    ensures r == 0 || r == iMinWeight
  {
    if 0 > iMinWeight then 0 else iMinWeight
  }

  /** `MIN(iCols, iMaxWeight)`: the requested maximum, capped at the number of vertices. */
  function EffectiveMaxWeight(iCols: nat, iMaxWeight: Int32): (r: Int32)
    ensures r <= iCols && r <= iMaxWeight
    ensures r == iCols || r == iMaxWeight
  {
    if iCols < iMaxWeight then iCols else iMaxWeight
  }

  /** With both bounds 0, as the Python wrapper passes them, the clamps leave both at 0. */
  lemma DefaultWindow(iCols: nat)
    ensures EffectiveMinWeight(0) == 0 && EffectiveMaxWeight(iCols, 0) == 0
  {
  }

  /** The output loop: a length-n vector holding 1 at the members of the clique below n and 0 elsewhere. */
  method MembershipVector(clique: set<nat>, iCols: nat) returns (output: array<Byte>)
    ensures output.Length == iCols
    ensures forall j | 0 <= j < iCols :: output[j] == (if j in clique then 1 else 0)
  {
    output := new Byte[iCols];
    for j := 0 to iCols
      invariant forall v | 0 <= v < j :: output[v] == (if v in clique then 1 else 0)
    {
      if j in clique {
        output[j] := 1;
      } else {
        output[j] := 0;
      }
    }
  }

  /**
   * `find_max_weighted_clique`: the dimension check, then the squareness check, then the clamped
   * search on the graph of the matrix, reported as a 0/1 membership vector.
   */
  method FindMaxWeightedClique(adjacencyMatrix: array2<Byte>, weightVector: array<Int32>,
                               iMinWeight: Int32, iMaxWeight: Int32, boolOnlyMaximal: bool,
                               iMaxNumCliques: Int32, search: Engine)
    returns (r: Result<array<Byte>>)
    ensures weightVector.Length != adjacencyMatrix.Length0 ==>
              r == Failure(RuntimeError(NonConsistentDimensions))
    ensures weightVector.Length == adjacencyMatrix.Length0 != adjacencyMatrix.Length1 ==>
              r == Failure(RuntimeError(NotSquare))
    ensures IsSquareOf(adjacencyMatrix, weightVector.Length) ==>
              && r.Success?
              && r.value.Length == weightVector.Length
              && var found := search(GraphOf(adjacencyMatrix, weightVector[..]),
                                     EffectiveMinWeight(iMinWeight),
                                     EffectiveMaxWeight(weightVector.Length, iMaxWeight),
                                     boolOnlyMaximal);
                 forall j | 0 <= j < r.value.Length :: r.value[j] == (if j in found then 1 else 0)
  {
    if weightVector.Length != adjacencyMatrix.Length0 {
      return Failure(RuntimeError(NonConsistentDimensions));
    }
    if adjacencyMatrix.Length0 != adjacencyMatrix.Length1 {
      return Failure(RuntimeError(NotSquare));
    }
    var iCols := weightVector.Length;
    var minWeight := EffectiveMinWeight(iMinWeight);
    var maxWeight := EffectiveMaxWeight(iCols, iMaxWeight);
    var graph := MatrixToGraph(adjacencyMatrix, weightVector);
    var clique := FindCliques(graph, minWeight, maxWeight, boolOnlyMaximal,
                              iMaxNumCliques, iMaxNumCliques, search);
    var output := MembershipVector(clique, iCols);
    return Success(output);
  }
}
