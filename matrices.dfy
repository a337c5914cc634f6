/** Dense real matrices as sequences of rows, and the matrix helpers shared
    by the modularity scorers: the lower-triangle sum, the element-wise
    product, the row/column filter and row extraction. */
module Matrices {
  import opened Common

  type Matrix = seq<seq<real>>

  predicate IsSquare(M: Matrix, n: nat)
  {
    |M| == n && forall i :: 0 <= i < n ==> |M[i]| == n
  }

  /** Entries `M[i][j]` with `j <= i` of the first `r` rows. */
  function LowerRowsSum(M: Matrix, r: nat): real
    requires IsSquare(M, |M|) && r <= |M|
  {
    if r == 0 then 0.0 else LowerRowsSum(M, r - 1) + Sum(M[r - 1][..r])
  }

  /** Sum of the lower triangle, diagonal included. */
  function LowerSum(M: Matrix): real
    requires IsSquare(M, |M|)
  {
    LowerRowsSum(M, |M|)
  }

  /** `sumLowerTriangular`: row by row, columns 0..i of row i. */
  method SumLowerTriangular(M: Matrix) returns (s: real)
    requires IsSquare(M, |M|)
    ensures s == LowerSum(M)
  {
    s := 0.0;
    for i := 0 to |M|
      invariant s == LowerRowsSum(M, i)
    {
      for j := 0 to i + 1
        invariant s == LowerRowsSum(M, i) + Sum(M[i][..j])
      {
        assert M[i][..j + 1][..j] == M[i][..j];
        s := s + M[i][j];
      }
    }
  }

  /** The lower sum reads nothing above the diagonal. */
  lemma {:induction false} LowerRowsSumLowerOnly(M: Matrix, M': Matrix, r: nat)
    requires IsSquare(M, |M|) && IsSquare(M', |M|) && r <= |M|
    requires forall i, j :: 0 <= j <= i < |M| ==> M[i][j] == M'[i][j]
    ensures LowerRowsSum(M, r) == LowerRowsSum(M', r)
  {
    if r > 0 {
      LowerRowsSumLowerOnly(M, M', r - 1);
      assert M[r - 1][..r] == M'[r - 1][..r];
    }
  }

  lemma LowerSumLowerOnly(M: Matrix, M': Matrix)
    requires IsSquare(M, |M|) && IsSquare(M', |M|)
    requires forall i, j :: 0 <= j <= i < |M| ==> M[i][j] == M'[i][j]
    ensures LowerSum(M) == LowerSum(M')
  {
    LowerRowsSumLowerOnly(M, M', |M|);
  }

  /** A matrix whose lower triangle is zero has lower sum zero. */
  lemma {:induction false} LowerRowsSumZero(M: Matrix, r: nat)
    requires IsSquare(M, |M|) && r <= |M|
    requires forall i, j :: 0 <= j <= i < |M| ==> M[i][j] == 0.0
    ensures LowerRowsSum(M, r) == 0.0
  {
    if r > 0 {
      LowerRowsSumZero(M, r - 1);
      var row := M[r - 1][..r];
      SumScale(row, row, 0.0);
    }
  }

  /** Entry-wise product (`np.multiply`, the `C(i, j) * modMatrix(i, j)` terms). */
  function Hadamard(M: Matrix, C: Matrix): (H: Matrix)
    requires IsSquare(M, |M|) && IsSquare(C, |M|)
    ensures IsSquare(H, |M|)
    ensures forall i, j :: 0 <= i < |M| && 0 <= j < |M| ==> H[i][j] == M[i][j] * C[i][j]
  {
    seq(|M|, i requires 0 <= i < |M| => seq(|M|, j requires 0 <= j < |M| => M[i][j] * C[i][j]))
  }

  /** `filter_adj_matrix` / `filterAdjMatrix`: the entries of the nodes in
      `V` and zero in every row and column of a node outside `V`. */
  function Filtered(A: Matrix, V: seq<int>): (B: Matrix)
    requires IsSquare(A, |A|)
    ensures IsSquare(B, |A|)
  {
    seq(|A|, i requires 0 <= i < |A| =>
      seq(|A|, j requires 0 <= j < |A| => if i in V && j in V then A[i][j] else 0.0))
  }

  /** The filter on a copy: for each index outside `V`, zero its row and
      then its column. */
  method FilterAdjMatrix(A: Matrix, V: seq<int>) returns (B: Matrix)
    requires IsSquare(A, |A|)
    ensures B == Filtered(A, V)
  {
    var n := |A|;
    B := A;
    for i := 0 to n
      invariant IsSquare(B, n)
      invariant forall x, y {:trigger B[x][y]} :: 0 <= x < n && 0 <= y < n ==>
        B[x][y] == if (x < i && x !in V) || (y < i && y !in V) then 0.0 else A[x][y]
    {
      ghost var B0 := B;
      if i !in V {
        // zero row i and column i
        B := seq(n, x requires 0 <= x < n =>
          seq(n, y requires 0 <= y < n => if x == i || y == i then 0.0 else B[x][y]));
      }
      forall x, y | 0 <= x < n && 0 <= y < n
        ensures B[x][y] == if (x < i + 1 && x !in V) || (y < i + 1 && y !in V) then 0.0 else A[x][y]
      {
        assert B[x][y] == if i !in V && (x == i || y == i) then 0.0 else B0[x][y];
      }
    }
    var F := Filtered(A, V);
    forall x | 0 <= x < n
      ensures B[x] == F[x]
    {
      assert forall y :: 0 <= y < n ==> B[x][y] == F[x][y];
    }
  }

  /** Filtering keeps nonnegative matrices nonnegative. */
  lemma FilteredNonneg(A: Matrix, V: seq<int>)
    requires IsSquare(A, |A|)
    requires forall i, j :: 0 <= i < |A| && 0 <= j < |A| ==> A[i][j] >= 0.0
    ensures forall i, j :: 0 <= i < |A| && 0 <= j < |A| ==> Filtered(A, V)[i][j] >= 0.0
  {
  }

  /** Filtering keeps symmetric matrices symmetric. */
  lemma FilteredSymmetric(A: Matrix, V: seq<int>)
    requires IsSquare(A, |A|)
    requires forall i, j :: 0 <= i < |A| && 0 <= j < |A| ==> A[i][j] == A[j][i]
    ensures forall i, j :: 0 <= i < |A| && 0 <= j < |A| ==> Filtered(A, V)[i][j] == Filtered(A, V)[j][i]
  {
  }

  /** Filtering by a list naming every index changes nothing, and filtering
      twice by the same list is filtering once. */
  lemma FilteredAllAndIdempotent(A: Matrix, V: seq<int>)
    requires IsSquare(A, |A|)
    ensures (forall i :: 0 <= i < |A| ==> i in V) ==> Filtered(A, V) == A
    ensures Filtered(Filtered(A, V), V) == Filtered(A, V)
  {
    if forall i :: 0 <= i < |A| ==> i in V {
      var F := Filtered(A, V);
      assert forall i :: 0 <= i < |A| ==> F[i] == A[i];
    }
    var F := Filtered(A, V);
    var FF := Filtered(F, V);
    assert forall i :: 0 <= i < |A| ==> FF[i] == F[i];
  }

  /** `extractRows`: row i of the result is row `rowIndices[i]` of the input. */
  method ExtractRows(M: Matrix, rowIndices: seq<int>) returns (R: Matrix)
    requires forall t :: 0 <= t < |rowIndices| ==> 0 <= rowIndices[t] < |M|
    ensures |R| == |rowIndices|
    ensures forall t :: 0 <= t < |R| ==> R[t] == M[rowIndices[t]]
  {
    R := [];
    for t := 0 to |rowIndices|
      invariant |R| == t
      invariant forall s :: 0 <= s < t ==> R[s] == M[rowIndices[s]]
    {
      R := R + [M[rowIndices[t]]];
    }
  }
}
