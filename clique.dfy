/**
 * The Python wrapper: the input guard and fixed parameters of `find_max_weighted_clique`, the
 * conversion of the engine's 0/1 vector to booleans, and `find_max_weighted_independent_set`,
 * which runs the clique search on the inverted upper triangle.
 */
module CliqueWrapper {
  import opened Base
  import opened Graphs
  import opened Cliquer
  import CliqueModule

  const PositiveWeights := "Clique algorithm works only with positive weights"

  // The search parameters are fixed, whatever the caller passes.
  const MaxCliqueNumber: Int32 := 1000
  const BoolOnlyMaximal := true
  const MinWeight: Int32 := 0
  const MaxWeight: Int32 := 0

  /** What the search returns on G with the fixed parameters. */
  ghost function EngineResult(search: Engine, G: WGraph): (found: set<nat>) {
    search(G, MinWeight, MaxWeight, BoolOnlyMaximal)
  }

  /** numpy's `min()` of a non-empty vector: a member no larger than any other. */
  function Min(s: seq<int>): (m: int)
    requires |s| > 0
    ensures m in s
    ensures forall k | 0 <= k < |s| :: m <= s[k]
  {
    if |s| == 1 then s[0]
    else
      var rest := Min(s[1..]);
      if s[0] <= rest then s[0] else rest
  }

  /**
   * The exception the guard of `find_max_weighted_clique` raises, in the order it checks: a
   * non-square matrix, a weight vector of the wrong length, an empty weight vector (numpy
   * refuses `min()` of it), a weight that is not positive. None when all checks pass.
   */
  ghost function GuardError(rows: nat, cols: nat, w: seq<int>): (raised: Option<Error>) {
    if rows != cols then Some(AssertionError(""))
    else if rows != |w| then Some(AssertionError(""))
    else if |w| == 0 then Some(ValueError)
    else if exists k | 0 <= k < |w| :: w[k] <= 0 then Some(AssertionError(PositiveWeights))
    else None
  }

  /** The guard lets through exactly the square n-by-n matrices with n positive weights, n > 0. */
  lemma GuardAccepts(rows: nat, cols: nat, w: seq<int>)
    ensures GuardError(rows, cols, w).None? <==>
              rows == cols == |w| > 0 && forall k | 0 <= k < |w| :: w[k] > 0
  {
  }

  /** The vertices a boolean membership vector selects. */
  ghost function Selected(v: seq<bool>): (S: set<nat>) {
    set j: nat | j < |v| && v[j]
  }

  /** `best_hypothesis_int > 0`, elementwise. */
  function ToBool(v: seq<Byte>): (b: seq<bool>) {
    seq(|v|, j requires 0 <= j < |v| => v[j] > 0)
  }

  /**
   * `find_max_weighted_clique`: the guard, then the C++ search with the fixed parameters, then
   * the conversion to booleans. The result marks exactly the vertices the search returned.
   */
  method FindMaxWeightedClique(adjacencyMatrix: array2<Byte>, vertexWeights: array<Int32>, search: Engine)
    returns (r: Result<seq<bool>>)
    ensures GuardError(adjacencyMatrix.Length0, adjacencyMatrix.Length1, vertexWeights[..]).Some? ==>
              r == Failure(GuardError(adjacencyMatrix.Length0, adjacencyMatrix.Length1, vertexWeights[..]).value)
    ensures GuardError(adjacencyMatrix.Length0, adjacencyMatrix.Length1, vertexWeights[..]).None? ==>
              && r.Success?
              && |r.value| == vertexWeights.Length
              && var found := EngineResult(search, CliqueModule.GraphOf(adjacencyMatrix, vertexWeights[..]));
                 && (forall j | 0 <= j < |r.value| :: r.value[j] <==> j in found)
                 && ((forall v | v in found :: v < vertexWeights.Length) ==> Selected(r.value) == found)
  {
    var M, w := adjacencyMatrix, vertexWeights;
    if M.Length0 != M.Length1 {
      return Failure(AssertionError(""));
    }
    if M.Length0 != w.Length {
      return Failure(AssertionError(""));
    }
    if w.Length == 0 {
      return Failure(ValueError);
    }
    if Min(w[..]) <= 0 {
      return Failure(AssertionError(PositiveWeights));
    }
    var impl := CliqueModule.FindMaxWeightedClique(M, w, MinWeight, MaxWeight, BoolOnlyMaximal,
                                                   MaxCliqueNumber, search);
    var bestHypothesisInt := impl.value;
    r := Success(ToBool(bestHypothesisInt[..]));
    ghost var found := EngineResult(search, CliqueModule.GraphOf(M, w[..]));
    if forall v | v in found :: v < w.Length {
      assert forall v :: v in Selected(r.value) <==> v in found;
    }
  }

  /** The inverted matrix: 1 strictly above the diagonal where M is 0, and 0 everywhere else. */
  ghost predicate IsInverted(C: array2<Byte>, M: array2<Byte>)
    reads C, M
  {
    && C.Length0 == M.Length0 && C.Length1 == M.Length1
    && forall i, j | 0 <= i < M.Length0 && 0 <= j < M.Length1 ::
         C[i, j] == (if i < j && M[i, j] == 0 then 1 else 0)
  }

  /**
   * Duality: the graph of the inverted matrix is the complement of the graph of M, so for
   * distinct i and j, {i, j} is an edge of one exactly when it is not an edge of the other.
   */
  lemma InvertedGraphIsComplement(C: array2<Byte>, M: array2<Byte>, w: seq<int>)
    requires CliqueModule.IsSquareOf(M, |w|) && IsInverted(C, M)
    ensures CliqueModule.GraphOf(C, w) == Complement(CliqueModule.GraphOf(M, w))
  {
    var G, H := CliqueModule.GraphOf(M, w), CliqueModule.GraphOf(C, w);
    forall i: nat, j: nat | i < |w| && j < |w|
      ensures Adjacent(H, i, j) <==> Adjacent(Complement(G), i, j)
    {
      CliqueModule.GraphOfEdge(C, w, i, j);
      CliqueModule.GraphOfEdge(M, w, i, j);
      CliqueModule.GraphOfEdge(C, w, j, i);
      CliqueModule.GraphOfEdge(M, w, j, i);
    }
    assert H.edges == Complement(G).edges;
  }

  /** The inverted matrix, and so the graph the independent-set search runs on, depends only on the strict upper triangle of M. */
  lemma InvertedReadsUpperTriangleOnly(C1: array2<Byte>, M1: array2<Byte>, C2: array2<Byte>, M2: array2<Byte>)
    requires IsInverted(C1, M1) && IsInverted(C2, M2)
    requires M1.Length0 == M2.Length0 && M1.Length1 == M2.Length1
    requires forall i, j | 0 <= i < M1.Length0 && i < j < M1.Length1 :: M1[i, j] == M2[i, j]
    ensures forall i, j | 0 <= i < C1.Length0 && 0 <= j < C1.Length1 :: C1[i, j] == C2[i, j]
  {
    forall i, j | 0 <= i < C1.Length0 && 0 <= j < C1.Length1 ensures C1[i, j] == C2[i, j] {
      if i < j {
        assert M1[i, j] == M2[i, j];
      }
    }
  }

  /**
   * The construction in `find_max_weighted_independent_set`: a zero matrix of M's shape, set to 1
   * where M is 0, then set to 0 at every index pair (i, j) with j <= i < rows. That last index
   * set reaches column rows - 1, so a matrix with more rows than columns raises an IndexError.
   */
  method InvertAdjacency(adjacencyMatrix: array2<Byte>) returns (r: Result<array2<Byte>>)
    ensures adjacencyMatrix.Length0 > adjacencyMatrix.Length1 ==> r == Failure(IndexError)
    ensures adjacencyMatrix.Length0 <= adjacencyMatrix.Length1 ==>
              r.Success? && IsInverted(r.value, adjacencyMatrix)
  {
    var M := adjacencyMatrix;
    var rows, cols := M.Length0, M.Length1;
    var inverted := new Byte[rows, cols]((i, j) => 0);
    // Set 1 wherever M is 0.
    for i := 0 to rows
      invariant forall a, b | 0 <= a < rows && 0 <= b < cols ::
                  inverted[a, b] == (if a < i && M[a, b] == 0 then 1 else 0)
    {
      for j := 0 to cols
        invariant forall a, b | 0 <= a < rows && 0 <= b < cols ::
                    inverted[a, b] == (if (a < i || (a == i && b < j)) && M[a, b] == 0 then 1 else 0)
      {
        if M[i, j] == 0 {
          inverted[i, j] := 1;
        }
      }
    }
    // Clear the diagonal and everything below it in the first `rows` rows.
    if rows > cols {
      return Failure(IndexError);
    }
    for i := 0 to rows
      invariant forall a, b | 0 <= a < rows && 0 <= b < cols ::
                  inverted[a, b] == (if !(b <= a < i) && M[a, b] == 0 then 1 else 0)
    {
      for j := 0 to i + 1
        invariant forall a, b | 0 <= a < rows && 0 <= b < cols ::
                    inverted[a, b] == (if !(b <= a < i || (a == i && b < j)) && M[a, b] == 0 then 1 else 0)
      {
        inverted[i, j] := 0;
      }
    }
    return Success(inverted);
  }

  /**
   * `find_max_weighted_independent_set`: the clique search on the inverted matrix with the same
   * weights. Apart from the IndexError of a matrix with more rows than columns, it fails exactly
   * as the clique entry point fails on M; otherwise the search runs on the complement of M's
   * graph, and a maximum-weight clique of that complement is marked as a maximum-weight
   * independent set of M's graph.
   */
  method FindMaxWeightedIndependentSet(adjacencyMatrix: array2<Byte>, vertexWeights: array<Int32>, search: Engine)
    returns (r: Result<seq<bool>>)
    ensures adjacencyMatrix.Length0 > adjacencyMatrix.Length1 ==> r == Failure(IndexError)
    ensures adjacencyMatrix.Length0 <= adjacencyMatrix.Length1 &&
            GuardError(adjacencyMatrix.Length0, adjacencyMatrix.Length1, vertexWeights[..]).Some? ==>
              r == Failure(GuardError(adjacencyMatrix.Length0, adjacencyMatrix.Length1, vertexWeights[..]).value)
    ensures GuardError(adjacencyMatrix.Length0, adjacencyMatrix.Length1, vertexWeights[..]).None? ==>
              && r.Success?
              && |r.value| == vertexWeights.Length
              && var G := CliqueModule.GraphOf(adjacencyMatrix, vertexWeights[..]);
                 var found := EngineResult(search, Complement(G));
                 && (forall j | 0 <= j < |r.value| :: r.value[j] <==> j in found)
                 && (IsClique(Complement(G), found) ==> IsIndependent(G, Selected(r.value)))
                 && (IsMaxWeightClique(Complement(G), found) ==> IsMaxWeightIndependentSet(G, Selected(r.value)))
  {
    var inverted := InvertAdjacency(adjacencyMatrix);
    if inverted.Failure? {
      return Failure(inverted.error);
    }
    r := FindMaxWeightedClique(inverted.value, vertexWeights, search);
    if GuardError(adjacencyMatrix.Length0, adjacencyMatrix.Length1, vertexWeights[..]).None? {
      ghost var G := CliqueModule.GraphOf(adjacencyMatrix, vertexWeights[..]);
      InvertedGraphIsComplement(inverted.value, adjacencyMatrix, vertexWeights[..]);
      CliqueOfComplementIffIndependent(G, EngineResult(search, Complement(G)));
      MaxCliqueOfComplementIffMaxIndependent(G, EngineResult(search, Complement(G)));
    }
  }
}
