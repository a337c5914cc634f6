/** The partition-quality score: `modularity` (and the similarity variant
    `calculate_Q_Sim`, the same computation on a similarity matrix), in its
    Python form (mask filled from `combinations(community, 2)`) and its C++
    form (mask filled from every ordered pair of distinct members). Both
    return -1 when the matrix has zero total weight and otherwise sum the
    lower triangle of `C ∘ modMatrix`. */
module Modularity {
  import opened Common
  import opened Matrices
  import Pairs

  /** Row sums `k_i`. */
  function Degrees(A: Matrix): (k: seq<real>)
    requires IsSquare(A, |A|)
    ensures |k| == |A|
  {
    seq(|A|, i requires 0 <= i < |A| => Sum(A[i]))
  }

  /** `W`, the sum of all row sums (twice the edge weight of a symmetric matrix). */
  function TotalWeight(A: Matrix): real
    requires IsSquare(A, |A|)
  {
    Sum(Degrees(A))
  }

  /** `modularity_matrix`: `norm * (A - norm * k kᵀ)` with `norm = 1 / W`. */
  function ModMatrix(A: Matrix): (M: Matrix)
    requires IsSquare(A, |A|)
    requires TotalWeight(A) != 0.0
    ensures IsSquare(M, |A|)
  {
    var k := Degrees(A);
    var norm := 1.0 / TotalWeight(A);
    seq(|A|, i requires 0 <= i < |A| =>
      seq(|A|, j requires 0 <= j < |A| => ModEntry(A[i][j], k[i], k[j], norm)))
  }

  /** One entry of the modularity matrix: `norm * (a_ij - norm * k_i * k_j)`. */
  function ModEntry(a: real, ki: real, kj: real, norm: real): real
  {
    norm * (a - norm * (ki * kj))
  }

  /** The modularity matrix of a symmetric matrix is symmetric. */
  lemma ModMatrixSymmetric(A: Matrix)
    requires IsSquare(A, |A|) && TotalWeight(A) != 0.0
    requires forall i, j :: 0 <= i < |A| && 0 <= j < |A| ==> A[i][j] == A[j][i]
    ensures forall i, j :: 0 <= i < |A| && 0 <= j < |A| ==> ModMatrix(A)[i][j] == ModMatrix(A)[j][i]
  {
    var k := Degrees(A);
    forall i, j | 0 <= i < |A| && 0 <= j < |A|
      ensures ModMatrix(A)[i][j] == ModMatrix(A)[j][i]
    {
      assert k[i] * k[j] == k[j] * k[i];
    }
  }

  /** Some community lists both `x` and `y`. */
  predicate Shared(cs: seq<seq<int>>, x: int, y: int)
  {
    exists c :: 0 <= c < |cs| && x in cs[c] && y in cs[c]
  }

  /** The C++ mask: 1 exactly for distinct nodes that share a community. */
  function CppMask(n: nat, cs: seq<seq<int>>): (C: Matrix)
    ensures IsSquare(C, n)
  {
    seq(n, x requires 0 <= x < n =>
      seq(n, y requires 0 <= y < n => if x != y && Shared(cs, x, y) then 1.0 else 0.0))
  }

  /** `combinations(c, 2)` lists `(x, y)` or `(y, x)`. */
  predicate PairedIn(c: seq<int>, x: int, y: int)
  {
    (x, y) in Pairs.Combinations(c) || (y, x) in Pairs.Combinations(c)
  }

  predicate Paired(cs: seq<seq<int>>, x: int, y: int)
  {
    exists c :: 0 <= c < |cs| && PairedIn(cs[c], x, y)
  }

  /** The Python mask: 1 exactly at both orientations of every pair listed by
      `combinations` of some community. */
  function PyMask(n: nat, cs: seq<seq<int>>): (C: Matrix)
    ensures IsSquare(C, n)
  {
    seq(n, x requires 0 <= x < n =>
      seq(n, y requires 0 <= y < n => if Paired(cs, x, y) then 1.0 else 0.0))
  }

  /** The score of a 0/1 mask: -1 on a zero-weight matrix, else the lower
      triangle of the masked modularity matrix. */
  function ModularityOf(A: Matrix, C: Matrix): real
    requires IsSquare(A, |A|) && IsSquare(C, |A|)
  {
    if TotalWeight(A) == 0.0 then -1.0 else LowerSum(Hadamard(ModMatrix(A), C))
  }

  /** Modularity of a list of communities as the C++ code scores it. */
  function Modularity(A: Matrix, cs: seq<seq<int>>): real
    requires IsSquare(A, |A|)
  {
    ModularityOf(A, CppMask(|A|, cs))
  }

  /** Modularity of a list of communities as the Python code scores it. */
  function ModularityPyOf(A: Matrix, cs: seq<seq<int>>): real
    requires IsSquare(A, |A|)
  {
    ModularityOf(A, PyMask(|A|, cs))
  }

  lemma SharedSnoc(cs: seq<seq<int>>, ci: nat, x: int, y: int)
    requires ci < |cs|
    ensures Shared(cs[..ci + 1], x, y) <==> Shared(cs[..ci], x, y) || (x in cs[ci] && y in cs[ci])
  {
    if Shared(cs[..ci + 1], x, y) {
      var c :| 0 <= c < ci + 1 && x in cs[..ci + 1][c] && y in cs[..ci + 1][c];
      if c < ci {
        assert cs[..ci][c] == cs[c];
      }
    }
    if Shared(cs[..ci], x, y) {
      var c :| 0 <= c < ci && x in cs[..ci][c] && y in cs[..ci][c];
      assert cs[..ci + 1][c] == cs[c];
    }
    if x in cs[ci] && y in cs[ci] {
      assert cs[..ci + 1][ci] == cs[ci];
    }
  }

  lemma PairedSnoc(cs: seq<seq<int>>, ci: nat, x: int, y: int)
    requires ci < |cs|
    ensures Paired(cs[..ci + 1], x, y) <==> Paired(cs[..ci], x, y) || PairedIn(cs[ci], x, y)
  {
    if Paired(cs[..ci + 1], x, y) {
      var c :| 0 <= c < ci + 1 && PairedIn(cs[..ci + 1][c], x, y);
      if c < ci {
        assert cs[..ci][c] == cs[c];
      }
    }
    if Paired(cs[..ci], x, y) {
      var c :| 0 <= c < ci && PairedIn(cs[..ci][c], x, y);
      assert cs[..ci + 1][c] == cs[c];
    }
    if PairedIn(cs[ci], x, y) {
      assert cs[..ci + 1][ci] == cs[ci];
    }
  }

  /** The C++ loops: for each community, every ordered pair of members that
      are different nodes gets a 1. */
  method CppCommunityMask(n: nat, cs: seq<seq<int>>) returns (C: Matrix)
    requires InRange(cs, n)
    ensures C == CppMask(n, cs)
  {
    C := seq(n, _ => seq(n, _ => 0.0));
    for ci := 0 to |cs|
      invariant IsSquare(C, n)
      invariant forall x, y {:trigger C[x][y]} :: 0 <= x < n && 0 <= y < n ==>
        C[x][y] == if x != y && Shared(cs[..ci], x, y) then 1.0 else 0.0
    {
      var c := cs[ci];
      for p := 0 to |c|
        invariant IsSquare(C, n)
        invariant forall x, y {:trigger C[x][y]} :: 0 <= x < n && 0 <= y < n ==>
          C[x][y] == if x != y && (Shared(cs[..ci], x, y) || (x in c[..p] && y in c)) then 1.0 else 0.0
      {
        for q := 0 to |c|
          invariant IsSquare(C, n)
          invariant forall x, y {:trigger C[x][y]} :: 0 <= x < n && 0 <= y < n ==>
            C[x][y] == if x != y && (Shared(cs[..ci], x, y) || (x in c[..p] && y in c) || (x == c[p] && y in c[..q]))
                       then 1.0 else 0.0
        {
          assert c[..q + 1] == c[..q] + [c[q]];
          var node, inner := c[p], c[q];
          if node != inner {
            C := C[node := C[node][inner := 1.0]];
          }
        }
        assert c[..p + 1] == c[..p] + [c[p]];
        assert c[..|c|] == c;
      }
      assert c[..|c|] == c;
      forall x, y | 0 <= x < n && 0 <= y < n
        ensures C[x][y] == if x != y && Shared(cs[..ci + 1], x, y) then 1.0 else 0.0
      {
        SharedSnoc(cs, ci, x, y);
      }
    }
    assert cs[..|cs|] == cs;
    var M := CppMask(n, cs);
    forall x | 0 <= x < n
      ensures C[x] == M[x]
    {
      assert forall y :: 0 <= y < n ==> C[x][y] == M[x][y];
    }
  }

  /** The Python loops: communities of at most one member are skipped; for
      every pair `(i, j)` of `combinations(community, 2)` both `C[i, j]` and
      `C[j, i]` get a 1. */
  method PyCommunityMask(n: nat, cs: seq<seq<int>>) returns (C: Matrix)
    requires InRange(cs, n)
    ensures C == PyMask(n, cs)
  {
    C := seq(n, _ => seq(n, _ => 0.0));
    for ci := 0 to |cs|
      invariant IsSquare(C, n)
      invariant forall x, y {:trigger C[x][y]} :: 0 <= x < n && 0 <= y < n ==>
        C[x][y] == if Paired(cs[..ci], x, y) then 1.0 else 0.0
    {
      var community := cs[ci];
      if |community| <= 1 {
        Pairs.CombinationsOfShort(community);
      } else {
        var pairs := Pairs.Combinations(community);
        for t := 0 to |pairs|
          invariant IsSquare(C, n)
          invariant forall x, y {:trigger C[x][y]} :: 0 <= x < n && 0 <= y < n ==>
            C[x][y] == if Paired(cs[..ci], x, y) || (x, y) in pairs[..t] || (y, x) in pairs[..t] then 1.0 else 0.0
        {
          var (i, j) := pairs[t];
          Pairs.CombinationsMember(community, pairs[t]);
          assert pairs[..t + 1] == pairs[..t] + [pairs[t]];
          C := C[i := C[i][j := 1.0]];
          C := C[j := C[j][i := 1.0]];
        }
        assert pairs[..|pairs|] == pairs;
      }
      forall x, y | 0 <= x < n && 0 <= y < n
        ensures C[x][y] == if Paired(cs[..ci + 1], x, y) then 1.0 else 0.0
      {
        PairedSnoc(cs, ci, x, y);
      }
    }
    assert cs[..|cs|] == cs;
    var M := PyMask(n, cs);
    forall x | 0 <= x < n
      ensures C[x] == M[x]
    {
      assert forall y :: 0 <= y < n ==> C[x][y] == M[x][y];
    }
  }

  /** `modularity` as written in C++. */
  method ModularityCpp(A: Matrix, communities: seq<seq<int>>) returns (q: real)
    requires IsSquare(A, |A|)
    requires InRange(communities, |A|)
    ensures q == Modularity(A, communities)
    ensures TotalWeight(A) == 0.0 ==> q == -1.0
  {
    var weightsSum := TotalWeight(A);
    if weightsSum == 0.0 {
      return -1.0;
    }
    var modMatrix := ModMatrix(A);
    var C := CppCommunityMask(|A|, communities);
    q := SumLowerTriangular(Hadamard(modMatrix, C));
  }

  /** `modularity` / `calculate_Q_Sim` as written in Python. */
  method ModularityPy(A: Matrix, communities: seq<seq<int>>) returns (q: real)
    requires IsSquare(A, |A|)
    requires InRange(communities, |A|)
    ensures q == ModularityPyOf(A, communities)
    ensures TotalWeight(A) == 0.0 ==> q == -1.0
  {
    var weightsSum := TotalWeight(A);
    if weightsSum == 0.0 {
      return -1.0;
    }
    var modMatrix := ModMatrix(A);
    var C := PyCommunityMask(|A|, communities);
    q := SumLowerTriangular(Hadamard(modMatrix, C));
  }

  // ---------------------------------------------------------------------
  // Properties of the score

  /** Without repeated members, `combinations` pairs are exactly the pairs of
      distinct members. */
  lemma {:induction false} PairedInDistinct(c: seq<int>, x: int, y: int)
    requires Distinct(c)
    ensures PairedIn(c, x, y) <==> x != y && x in c && y in c
  {
    Pairs.CombinationsMember(c, (x, y));
    Pairs.CombinationsMember(c, (y, x));
    if x != y && x in c && y in c {
      var a :| 0 <= a < |c| && c[a] == x;
      var b :| 0 <= b < |c| && c[b] == y;
      if a < b {
        assert (x, y) == (c[a], c[b]);
      } else {
        assert (y, x) == (c[b], c[a]);
      }
    }
  }

  /** The Python and C++ scores agree when no community repeats a node. */
  lemma PyMaskIsCppMask(n: nat, cs: seq<seq<int>>)
    requires forall c :: 0 <= c < |cs| ==> Distinct(cs[c])
    ensures PyMask(n, cs) == CppMask(n, cs)
  {
    var P, Q := PyMask(n, cs), CppMask(n, cs);
    forall x, y | 0 <= x < n && 0 <= y < n
      ensures P[x][y] == Q[x][y]
    {
      forall c | 0 <= c < |cs| {
        PairedInDistinct(cs[c], x, y);
      }
    }
    assert forall x :: 0 <= x < n ==> P[x] == Q[x];
  }

  lemma ModularityPyIsCpp(A: Matrix, cs: seq<seq<int>>)
    requires IsSquare(A, |A|)
    requires forall c :: 0 <= c < |cs| ==> Distinct(cs[c])
    ensures ModularityPyOf(A, cs) == Modularity(A, cs)
  {
    PyMaskIsCppMask(|A|, cs);
  }

  /** A community of at most one member adds no pair, so adding it leaves the
      score unchanged. */
  lemma SingletonAddsNothing(A: Matrix, cs: seq<seq<int>>, c: seq<int>)
    requires IsSquare(A, |A|)
    requires |c| <= 1
    ensures Modularity(A, cs + [c]) == Modularity(A, cs)
  {
    var n := |A|;
    var P, Q := CppMask(n, cs + [c]), CppMask(n, cs);
    forall x, y | 0 <= x < n && 0 <= y < n && x != y
      ensures Shared(cs + [c], x, y) <==> Shared(cs, x, y)
    {
      if Shared(cs + [c], x, y) {
        var k :| 0 <= k < |cs| + 1 && x in (cs + [c])[k] && y in (cs + [c])[k];
        assert (cs + [c])[k] == cs[k];
      }
      if Shared(cs, x, y) {
        var k :| 0 <= k < |cs| && x in cs[k] && y in cs[k];
        assert (cs + [c])[k] == cs[k];
      }
    }
    assert forall x :: 0 <= x < n ==> P[x] == Q[x];
    assert P == Q;
  }

  /** A pair that already shares a community counts once: adding a community
      contained in an existing one leaves the score unchanged. */
  lemma ContainedCommunityAddsNothing(A: Matrix, cs: seq<seq<int>>, c: seq<int>, k: nat)
    requires IsSquare(A, |A|)
    requires k < |cs| && forall x :: x in c ==> x in cs[k]
    ensures Modularity(A, cs + [c]) == Modularity(A, cs)
  {
    var n := |A|;
    var P, Q := CppMask(n, cs + [c]), CppMask(n, cs);
    forall x, y | 0 <= x < n && 0 <= y < n
      ensures Shared(cs + [c], x, y) <==> Shared(cs, x, y)
    {
      if Shared(cs + [c], x, y) {
        var j :| 0 <= j < |cs| + 1 && x in (cs + [c])[j] && y in (cs + [c])[j];
        if j < |cs| {
          assert (cs + [c])[j] == cs[j];
        } else {
          assert x in cs[k] && y in cs[k];
        }
      }
      if Shared(cs, x, y) {
        var j :| 0 <= j < |cs| && x in cs[j] && y in cs[j];
        assert (cs + [c])[j] == cs[j];
      }
    }
    assert forall x :: 0 <= x < n ==> P[x] == Q[x];
    assert P == Q;
  }

  // ---------------------------------------------------------------------
  // Bounds

  predicate Nonnegative(A: Matrix)
    requires IsSquare(A, |A|)
  {
    forall i, j :: 0 <= i < |A| && 0 <= j < |A| ==> A[i][j] >= 0.0
  }

  /** Every mask entry lies in [0, 1]. */
  predicate UnitMask(C: Matrix, n: nat)
    requires IsSquare(C, n)
  {
    forall i, j :: 0 <= i < n && 0 <= j < n ==> 0.0 <= C[i][j] <= 1.0
  }

  lemma DegreesNonneg(A: Matrix)
    requires IsSquare(A, |A|) && Nonnegative(A)
    ensures forall i :: 0 <= i < |A| ==> Degrees(A)[i] >= 0.0
    ensures TotalWeight(A) >= 0.0
  {
    forall i | 0 <= i < |A| ensures Degrees(A)[i] >= 0.0 {
      SumNonneg(A[i]);
    }
    SumNonneg(Degrees(A));
  }

  /** Multiplication written as a function application: the bound proofs
      below match equal factors by congruence instead of by nonlinear
      arithmetic. */
  function Scale(c: real, x: real): real
  {
    c * x
  }

  lemma ScaleMono(c: real, x: real, y: real)
    requires c >= 0.0 && x <= y
    ensures Scale(c, x) <= Scale(c, y)
  {
  }

  lemma ScaleAdd(c: real, x: real, y: real)
    ensures Scale(c, x + y) == Scale(c, x) + Scale(c, y)
  {
  }

  /** A constant factor comes out of a sum. */
  lemma {:induction false} SumOfScaled(s: seq<real>, u: seq<real>, c: real)
    requires |s| == |u|
    requires forall t :: 0 <= t < |s| ==> u[t] == Scale(c, s[t])
    ensures Sum(u) == Scale(c, Sum(s))
  {
    if s != [] {
      var n := |s|;
      SumOfScaled(s[..n - 1], u[..n - 1], c);
      ScaleAdd(c, Sum(s[..n - 1]), s[n - 1]);
    }
  }

  /** A row bounded below termwise by `-c v_t` sums to at least `-c` times the matching prefix of `v`. */
  lemma {:induction false} SumAboveScaled(row: seq<real>, v: seq<real>, c: real)
    requires |row| <= |v|
    requires forall t :: 0 <= t < |row| ==> row[t] >= -Scale(c, v[t])
    ensures Sum(row) >= -Scale(c, Sum(v[..|row|]))
  {
    var n := |row|;
    if n == 0 {
      assert v[..0] == [];
    } else {
      SumAboveScaled(row[..n - 1], v, c);
      assert v[..n][..n - 1] == v[..n - 1];
      ScaleAdd(c, Sum(v[..n - 1]), v[n - 1]);
    }
  }

  /** `d` are normalised degrees (nonnegative, summing to 1) and the rows of
      the nonnegative matrix `U` sum to them. */
  predicate Normalised(U: Matrix, d: seq<real>)
  {
    IsSquare(U, |U|) && |d| == |U| && Sum(d) == 1.0
    && (forall i :: 0 <= i < |d| ==> d[i] >= 0.0 && Sum(U[i]) == d[i])
    && (forall i, j :: 0 <= i < |U| && 0 <= j < |U| ==> U[i][j] >= 0.0)
  }

  /** On the lower triangle, `H` lies between `-d_i d_j` and `U_ij`. */
  predicate Sandwiched(H: Matrix, U: Matrix, d: seq<real>)
    requires IsSquare(H, |H|) && IsSquare(U, |H|) && |d| == |H|
  {
    forall i, j :: 0 <= j <= i < |H| ==> -Scale(d[i], d[j]) <= H[i][j] <= U[i][j]
  }

  lemma RowBounds(H: Matrix, U: Matrix, d: seq<real>, i: nat)
    requires Normalised(U, d) && IsSquare(H, |U|) && Sandwiched(H, U, d)
    requires i < |H|
    ensures -d[i] <= Sum(H[i][..i + 1]) <= d[i]
  {
    var row := H[i][..i + 1];
    forall t | 0 <= t < |row| ensures row[t] >= -Scale(d[i], d[t]) {
      assert row[t] == H[i][t];
    }
    SumAboveScaled(row, d, d[i]);
    SumPrefixBound(d, i + 1);
    ScaleMono(d[i], Sum(d[..i + 1]), 1.0);
    var upper := U[i][..i + 1];
    forall t | 0 <= t < |row| ensures upper[t] >= row[t] {
      assert row[t] == H[i][t] && upper[t] == U[i][t];
    }
    SumMono(upper, row);
    SumPrefixBound(U[i], i + 1);
  }

  lemma {:induction false} LowerRowsBounds(H: Matrix, U: Matrix, d: seq<real>, r: nat)
    requires Normalised(U, d) && IsSquare(H, |U|) && Sandwiched(H, U, d)
    requires r <= |H|
    ensures -Sum(d[..r]) <= LowerRowsSum(H, r) <= Sum(d[..r])
  {
    if r == 0 {
      assert d[..0] == [];
    } else {
      LowerRowsBounds(H, U, d, r - 1);
      RowBounds(H, U, d, r - 1);
      assert d[..r][..r - 1] == d[..r - 1];
    }
  }

  /** Each masked term lies between `-(k_i / W)(k_j / W)` and `A_ij / W`. */
  lemma TermBounds(A: Matrix, C: Matrix, i: nat, j: nat)
    requires IsSquare(A, |A|) && IsSquare(C, |A|) && Nonnegative(A) && UnitMask(C, |A|)
    requires TotalWeight(A) > 0.0
    requires i < |A| && j < |A|
    ensures -Scale(NormDegrees(A)[i], NormDegrees(A)[j]) <= Hadamard(ModMatrix(A), C)[i][j] <= NormWeights(A)[i][j]
  {
    var norm, k := 1.0 / TotalWeight(A), Degrees(A);
    DegreesNonneg(A);
    var M := ModMatrix(A);
    assert Hadamard(M, C)[i][j] == Scale(M[i][j], C[i][j]);
    ModEntryBounds(A[i][j], k[i], k[j], norm);
    MaskedBounds(M[i][j], C[i][j], -Scale(Scale(norm, k[i]), Scale(norm, k[j])), Scale(norm, A[i][j]));
    assert NormDegrees(A)[i] == Scale(norm, k[i]) && NormDegrees(A)[j] == Scale(norm, k[j]);
    assert NormWeights(A)[i][j] == Scale(norm, A[i][j]);
  }

  /** An entry of the modularity matrix lies between `-(norm k_i)(norm k_j)` and `norm a_ij`. */
  lemma ModEntryBounds(a: real, ki: real, kj: real, norm: real)
    requires a >= 0.0 && ki >= 0.0 && kj >= 0.0 && norm > 0.0
    ensures -Scale(Scale(norm, ki), Scale(norm, kj)) <= ModEntry(a, ki, kj, norm) <= Scale(norm, a)
    ensures -Scale(Scale(norm, ki), Scale(norm, kj)) <= 0.0 <= Scale(norm, a)
  {
    assert ki * kj >= 0.0;
    assert norm * (ki * kj) >= 0.0;
    assert Scale(Scale(norm, ki), Scale(norm, kj)) == norm * (norm * (ki * kj));
  }

  /** Scaling by a mask entry in [0, 1] keeps a value between bounds on either side of 0. */
  lemma MaskedBounds(m: real, c: real, lo: real, hi: real)
    requires lo <= m <= hi && lo <= 0.0 <= hi && 0.0 <= c <= 1.0
    ensures lo <= Scale(m, c) <= hi
  {
    if m >= 0.0 {
      ScaleDown(m, c);
    } else {
      ScaleUp(m, c);
    }
  }

  lemma ScaleDown(m: real, c: real)
    requires m >= 0.0 && 0.0 <= c <= 1.0
    ensures 0.0 <= Scale(m, c) <= m
  {
  }

  lemma ScaleUp(m: real, c: real)
    requires m <= 0.0 && 0.0 <= c <= 1.0
    ensures m <= Scale(m, c) <= 0.0
  {
  }

  /** `k_i / W`, the degrees normalised by the total weight. */
  function NormDegrees(A: Matrix): (d: seq<real>)
    requires IsSquare(A, |A|) && TotalWeight(A) != 0.0
    ensures |d| == |A|
  {
    seq(|A|, i requires 0 <= i < |A| => Scale(1.0 / TotalWeight(A), Degrees(A)[i]))
  }

  /** `A_ij / W`, the weights normalised by the total weight. */
  function NormWeights(A: Matrix): (U: Matrix)
    requires IsSquare(A, |A|) && TotalWeight(A) != 0.0
    ensures IsSquare(U, |A|)
  {
    seq(|A|, i requires 0 <= i < |A| =>
      seq(|A|, j requires 0 <= j < |A| => Scale(1.0 / TotalWeight(A), A[i][j])))
  }

  lemma NormalisedWeights(A: Matrix)
    requires IsSquare(A, |A|) && Nonnegative(A) && TotalWeight(A) > 0.0
    ensures Normalised(NormWeights(A), NormDegrees(A))
  {
    var norm, k := 1.0 / TotalWeight(A), Degrees(A);
    var d, U := NormDegrees(A), NormWeights(A);
    DegreesNonneg(A);
    SumOfScaled(k, d, norm);
    assert Scale(norm, TotalWeight(A)) == 1.0;
    forall i | 0 <= i < |A| ensures d[i] >= 0.0 && Sum(U[i]) == d[i] {
      SumOfScaled(A[i], U[i], norm);
      assert d[i] == Scale(norm, k[i]);
    }
    forall i, j | 0 <= i < |A| && 0 <= j < |A| ensures U[i][j] >= 0.0 {
      assert U[i][j] == Scale(norm, A[i][j]);
    }
  }

  lemma SandwichedModularity(A: Matrix, C: Matrix)
    requires IsSquare(A, |A|) && IsSquare(C, |A|) && Nonnegative(A) && UnitMask(C, |A|)
    requires TotalWeight(A) > 0.0
    ensures Sandwiched(Hadamard(ModMatrix(A), C), NormWeights(A), NormDegrees(A))
  {
    var H, U, d := Hadamard(ModMatrix(A), C), NormWeights(A), NormDegrees(A);
    forall i, j | 0 <= j <= i < |A| ensures -Scale(d[i], d[j]) <= H[i][j] <= U[i][j] {
      TermBounds(A, C, i, j);
    }
  }

  /** With nonnegative weights and a mask of entries in [0, 1] the score lies
      in [-1, 1]; in particular it is never below the zero-weight sentinel. */
  lemma ModularityBounds(A: Matrix, C: Matrix)
    requires IsSquare(A, |A|) && IsSquare(C, |A|) && Nonnegative(A) && UnitMask(C, |A|)
    ensures -1.0 <= ModularityOf(A, C) <= 1.0
  {
    DegreesNonneg(A);
    if TotalWeight(A) != 0.0 {
      var d := NormDegrees(A);
      NormalisedWeights(A);
      SandwichedModularity(A, C);
      LowerRowsBounds(Hadamard(ModMatrix(A), C), NormWeights(A), d, |A|);
      assert d[..|A|] == d;
    }
  }

  lemma CppMaskIsUnit(n: nat, cs: seq<seq<int>>)
    ensures UnitMask(CppMask(n, cs), n)
  {
  }

  /** The C++ score of any list of communities on a nonnegative matrix lies
      in [-1, 1]. */
  lemma ModularityInRange(A: Matrix, cs: seq<seq<int>>)
    requires IsSquare(A, |A|) && Nonnegative(A)
    ensures -1.0 <= Modularity(A, cs) <= 1.0
  {
    CppMaskIsUnit(|A|, cs);
    ModularityBounds(A, CppMask(|A|, cs));
  }

  /** The Python score (also `calculate_Q_Sim`) of any list of communities
      on a nonnegative matrix lies in [-1, 1]. */
  lemma ModularityPyInRange(A: Matrix, cs: seq<seq<int>>)
    requires IsSquare(A, |A|) && Nonnegative(A)
    ensures -1.0 <= ModularityPyOf(A, cs) <= 1.0
  {
    ModularityBounds(A, PyMask(|A|, cs));
  }
}
