/** Seed selection by local expansion (`local_expansion.cpp`): maximal
    cliques of more than two nodes, ordered by average distance, are grown
    greedily under a fitness function into seeds; when the cliques run out,
    the remaining seeds are the unselected nodes farthest from the seeds
    chosen so far. The fitness function is a parameter of the model. */
module LocalExpansion {
  import opened Common
  import opened Matrices
  import opened Cliques

  /** Every entry of `nodes` is a node below `n`. */
  predicate InNodes(n: nat, nodes: seq<int>)
  {
    forall t :: 0 <= t < |nodes| ==> 0 <= nodes[t] < n
  }

  /** No node has a positive weight to itself, so the positive entries form
      a graph without self-loops. */
  predicate NoSelfLoops(A: Matrix)
    requires IsSquare(A, |A|)
  {
    forall v :: 0 <= v < |A| ==> A[v][v] <= 0.0
  }

  /** `findAllCliques`: positive weights are edges, and only maximal cliques
      of more than two nodes are kept. */
  method FindAllCliques(A: Matrix) returns (cliques: seq<seq<int>>)
    requires IsSquare(A, |A|) && NoSelfLoops(A)
    ensures cliques == AllCliques(Positive(A), 3)
    ensures forall i :: 0 <= i < |cliques| ==>
      |cliques[i]| >= 3 && Distinct(cliques[i]) && InNodes(|A|, cliques[i])
  {
    cliques := Cliques.FindAllCliques(Positive(A), 3);
    CliquesShape(A);
  }

  lemma CliquesShape(A: Matrix)
    requires IsSquare(A, |A|) && NoSelfLoops(A)
    ensures forall i :: 0 <= i < |AllCliques(Positive(A), 3)| ==>
      var c := AllCliques(Positive(A), 3)[i];
      |c| >= 3 && Distinct(c) && InNodes(|A|, c)
  {
    var G := Positive(A);
    InitialInv(G);
    FoundMaximal(G, 3, [], Range(|G|), []);
    forall i | 0 <= i < |AllCliques(G, 3)|
      ensures InNodes(|A|, AllCliques(G, 3)[i])
    {
      assert MaximalList(G, 3, AllCliques(G, 3)[i]);
    }
  }

  // ---------------------------------------------------------------------
  // averageWeight

  /** The distances from `nodes[i]` to `nodes[j]` for every `j < cols`
      other than `i`, summed in loop order. */
  function RowPart(D: Matrix, nodes: seq<int>, i: nat, cols: nat): real
    requires IsSquare(D, |D|) && InNodes(|D|, nodes) && i < |nodes| && cols <= |nodes|
  {
    if cols == 0 then 0.0
    else
      var term := if cols - 1 != i then D[nodes[i]][nodes[cols - 1]] else 0.0;
      RowPart(D, nodes, i, cols - 1) + term
  }

  /** The distances between distinct positions of the first `rows` rows. */
  function PairPart(D: Matrix, nodes: seq<int>, rows: nat): real
    requires IsSquare(D, |D|) && InNodes(|D|, nodes) && rows <= |nodes|
  {
    if rows == 0 then 0.0
    else PairPart(D, nodes, rows - 1) + RowPart(D, nodes, rows - 1, |nodes|)
  }

  /** The mean distance over the `n * (n - 1)` ordered pairs of positions. */
  function Average(D: Matrix, nodes: seq<int>): real
    requires IsSquare(D, |D|) && InNodes(|D|, nodes) && |nodes| >= 2
  {
    PairPart(D, nodes, |nodes|) / (|nodes| * (|nodes| - 1)) as real
  }

  /** `averageWeight`: the two nested loops skip the diagonal. */
  method AverageWeight(D: Matrix, nodes: seq<int>) returns (avg: real)
    requires IsSquare(D, |D|) && InNodes(|D|, nodes) && |nodes| >= 2
    ensures avg == Average(D, nodes)
  {
    var sumDistances := 0.0;
    var nbEdges := |nodes| * (|nodes| - 1);
    for i := 0 to |nodes|
      invariant sumDistances == PairPart(D, nodes, i)
    {
      for j := 0 to |nodes|
        invariant sumDistances == PairPart(D, nodes, i) + RowPart(D, nodes, i, j)
      {
        if i != j {
          sumDistances := sumDistances + D[nodes[i]][nodes[j]];
        }
      }
    }
    avg := sumDistances / nbEdges as real;
  }

  /** Every distance between two different positions lies in `[lo, hi]`. */
  predicate OffDiagonalWithin(D: Matrix, nodes: seq<int>, lo: real, hi: real)
    requires IsSquare(D, |D|) && InNodes(|D|, nodes)
  {
    forall i, j :: 0 <= i < |nodes| && 0 <= j < |nodes| && i != j ==>
      lo <= D[nodes[i]][nodes[j]] <= hi
  }

  /** How many terms `RowPart(D, nodes, i, cols)` adds up. */
  function Terms(i: nat, cols: nat): nat
  {
    if i < cols then cols - 1 else cols
  }

  /** `m` copies of `x` added up. */
  function Times(m: nat, x: real): real
  {
    if m == 0 then 0.0 else Times(m - 1, x) + x
  }

  lemma {:induction false} TimesAdd(a: nat, b: nat, x: real)
    ensures Times(a + b, x) == Times(a, x) + Times(b, x)
    decreases b
  {
    if b > 0 {
      TimesAdd(a, b - 1, x);
    }
  }

  lemma {:induction false} TimesIsProduct(m: nat, x: real)
    ensures Times(m, x) == m as real * x
  {
    if m > 0 {
      TimesIsProduct(m - 1, x);
    }
  }

  lemma {:induction false} RowPartBounds(D: Matrix, nodes: seq<int>, i: nat, cols: nat, lo: real, hi: real)
    requires IsSquare(D, |D|) && InNodes(|D|, nodes) && i < |nodes| && cols <= |nodes|
    requires OffDiagonalWithin(D, nodes, lo, hi)
    ensures Times(Terms(i, cols), lo) <= RowPart(D, nodes, i, cols) <= Times(Terms(i, cols), hi)
  {
    if cols > 0 {
      RowPartBounds(D, nodes, i, cols - 1, lo, hi);
    }
  }

  lemma {:induction false} PairPartBounds(D: Matrix, nodes: seq<int>, rows: nat, lo: real, hi: real)
    requires IsSquare(D, |D|) && InNodes(|D|, nodes) && rows <= |nodes| && |nodes| >= 1
    requires OffDiagonalWithin(D, nodes, lo, hi)
    ensures Times(rows * (|nodes| - 1), lo) <= PairPart(D, nodes, rows) <= Times(rows * (|nodes| - 1), hi)
  {
    if rows > 0 {
      PairPartBounds(D, nodes, rows - 1, lo, hi);
      RowPartBounds(D, nodes, rows - 1, |nodes|, lo, hi);
      var w := |nodes| - 1;
      assert rows * w == (rows - 1) * w + w;
      TimesAdd((rows - 1) * w, w, lo);
      TimesAdd((rows - 1) * w, w, hi);
    }
  }

  /** The average lies between the smallest and the largest distance of
      two different members. */
  lemma AverageBounds(D: Matrix, nodes: seq<int>, lo: real, hi: real)
    requires IsSquare(D, |D|) && InNodes(|D|, nodes) && |nodes| >= 2
    requires OffDiagonalWithin(D, nodes, lo, hi)
    ensures lo <= Average(D, nodes) <= hi
  {
    var pairs := |nodes| * (|nodes| - 1);
    var s := PairPart(D, nodes, |nodes|);
    PairPartBounds(D, nodes, |nodes|, lo, hi);
    TimesIsProduct(pairs, lo);
    TimesIsProduct(pairs, hi);
    assert pairs > 0;
    assert pairs as real * lo <= s <= pairs as real * hi;
    DivideBounds(s, pairs as real, lo, hi);
  }

  lemma DivideBounds(s: real, k: real, lo: real, hi: real)
    requires k > 0.0 && k * lo <= s <= k * hi
    ensures lo <= s / k <= hi
  {
    var q := s / k;
    assert q * k == s;
    if q < lo {
      MulMono(k, q, lo);
    }
    if q > hi {
      MulMono(k, hi, q);
    }
  }

  lemma MulMono(a: real, b: real, c: real)
    requires a > 0.0 && b < c
    ensures a * b < a * c
  {
  }

  // ---------------------------------------------------------------------
  // findAndSortCliquesByAverageWeight

  /** A clique with its average weight, as `CliqueWithWeight` holds it. */
  datatype Weighted = Weighted(clique: seq<int>, weight: real)

  predicate HeaviestFirst(ws: seq<Weighted>)
  {
    forall i, j :: 0 <= i < j < |ws| ==> ws[i].weight >= ws[j].weight
  }

  /** Each entry carries the average weight of its clique of at least three
      nodes. */
  predicate WeightsOf(D: Matrix, ws: seq<Weighted>)
    requires IsSquare(D, |D|)
  {
    forall i :: 0 <= i < |ws| ==>
      |ws[i].clique| >= 3 && InNodes(|D|, ws[i].clique) && ws[i].weight == Average(D, ws[i].clique)
  }

  function CliquesOf(ws: seq<Weighted>): (r: seq<seq<int>>)
    ensures |r| == |ws| && forall i :: 0 <= i < |ws| ==> r[i] == ws[i].clique
  {
    seq(|ws|, i requires 0 <= i < |ws| => ws[i].clique)
  }

  lemma CliquesOfAppend(a: seq<Weighted>, b: seq<Weighted>)
    ensures CliquesOf(a + b) == CliquesOf(a) + CliquesOf(b)
  {
  }

  /** Reordering the pairs reorders their cliques alike. */
  lemma {:induction false} CliquesOfPermutation(a: seq<Weighted>, b: seq<Weighted>)
    requires multiset(a) == multiset(b)
    ensures multiset(CliquesOf(a)) == multiset(CliquesOf(b))
    decreases |a|
  {
    if a == [] {
      assert |b| == |multiset(b)| == 0;
    } else {
      var x := a[|a| - 1];
      var front := a[..|a| - 1];
      assert a == front + [x];
      assert x in multiset(b);
      var m :| 0 <= m < |b| && b[m] == x;
      var rest := b[..m] + b[m + 1..];
      assert b == b[..m] + [x] + b[m + 1..];
      assert multiset(rest) + multiset{x} == multiset(b);
      assert multiset(front) + multiset{x} == multiset(a);
      assert multiset(rest) == multiset(b) - multiset{x};
      assert multiset(front) == multiset(a) - multiset{x};
      CliquesOfPermutation(front, rest);
      CliquesOfAppend(front, [x]);
      CliquesOfAppend(b[..m], [x]);
      CliquesOfAppend(b[..m] + [x], b[m + 1..]);
      CliquesOfAppend(b[..m], b[m + 1..]);
    }
  }

  lemma WeightsOfPermutation(D: Matrix, a: seq<Weighted>, b: seq<Weighted>)
    requires IsSquare(D, |D|) && WeightsOf(D, a) && multiset(a) == multiset(b)
    ensures WeightsOf(D, b)
  {
    forall i | 0 <= i < |b|
      ensures |b[i].clique| >= 3 && InNodes(|D|, b[i].clique) && b[i].weight == Average(D, b[i].clique)
    {
      assert b[i] in multiset(a);
      var t :| 0 <= t < |a| && a[t] == b[i];
    }
  }

  lemma {:induction false} Heaviest(ws: seq<Weighted>) returns (m: nat)
    requires ws != []
    ensures m < |ws| && forall t :: 0 <= t < |ws| ==> ws[t].weight <= ws[m].weight
  {
    m := 0;
    if |ws| > 1 {
      var r := Heaviest(ws[1..]);
      assert forall t :: 1 <= t < |ws| ==> ws[t] == ws[1..][t - 1];
      if ws[0].weight <= ws[r + 1].weight {
        m := r + 1;
      }
    }
  }

  /** `std::sort` with the comparator `a.weight > b.weight`: a permutation,
      heaviest first; the order among equal weights is left open, so each
      step takes any heaviest remaining pair. */
  method SortHeaviestFirst(ws: seq<Weighted>) returns (sorted: seq<Weighted>)
    ensures multiset(sorted) == multiset(ws) && HeaviestFirst(sorted)
  {
    sorted := [];
    var rest := ws;
    while rest != []
      invariant multiset(sorted) + multiset(rest) == multiset(ws)
      invariant HeaviestFirst(sorted)
      invariant forall i, t :: 0 <= i < |sorted| && 0 <= t < |rest| ==> sorted[i].weight >= rest[t].weight
      decreases |rest|
    {
      var heaviest := Heaviest(rest);
      var m :| 0 <= m < |rest| && forall t :: 0 <= t < |rest| ==> rest[t].weight <= rest[m].weight;
      var next := rest[..m] + rest[m + 1..];
      TakeOut(rest, m, next);
      TakeHeaviest(sorted, rest, m, next, sorted + [rest[m]]);
      sorted := sorted + [rest[m]];
      rest := next;
    }
  }

  /** Removing the entry at `m` leaves the other entries. */
  lemma TakeOut(rest: seq<Weighted>, m: nat, next: seq<Weighted>)
    requires m < |rest| && next == rest[..m] + rest[m + 1..]
    ensures multiset(next) + multiset{rest[m]} == multiset(rest)
    ensures forall t :: 0 <= t < |next| ==> next[t] in rest
  {
    assert rest == rest[..m] + [rest[m]] + rest[m + 1..];
  }

  /** Appending a heaviest remaining pair keeps the order, and it is still
      at least as heavy as what remains. */
  lemma TakeHeaviest(sorted: seq<Weighted>, rest: seq<Weighted>, m: nat, next: seq<Weighted>, sorted': seq<Weighted>)
    requires m < |rest| && HeaviestFirst(sorted) && sorted' == sorted + [rest[m]]
    requires forall i, t :: 0 <= i < |sorted| && 0 <= t < |rest| ==> sorted[i].weight >= rest[t].weight
    requires forall t :: 0 <= t < |rest| ==> rest[t].weight <= rest[m].weight
    requires forall t :: 0 <= t < |next| ==> next[t] in rest
    ensures HeaviestFirst(sorted')
    ensures forall i, t :: 0 <= i < |sorted'| && 0 <= t < |next| ==> sorted'[i].weight >= next[t].weight
  {
  }

  /** `findAndSortCliquesByAverageWeight`: every clique of more than two
      nodes, in non-increasing order of average distance. */
  method FindAndSortCliquesByAverageWeight(D: Matrix, A: Matrix) returns (sorted: seq<seq<int>>)
    requires IsSquare(A, |A|) && IsSquare(D, |A|) && NoSelfLoops(A)
    ensures multiset(sorted) == multiset(AllCliques(Positive(A), 3))
    ensures forall i :: 0 <= i < |sorted| ==> |sorted[i]| >= 3 && InNodes(|A|, sorted[i])
    ensures forall i, j :: 0 <= i < j < |sorted| ==> Average(D, sorted[i]) >= Average(D, sorted[j])
  {
    var cliques := FindAllCliques(A);
    var withWeights: seq<Weighted> := [];
    for i := 0 to |cliques|
      invariant CliquesOf(withWeights) == cliques[..i]
      invariant WeightsOf(D, withWeights)
    {
      var avgWeight := AverageWeight(D, cliques[i]);
      CliquesOfAppend(withWeights, [Weighted(cliques[i], avgWeight)]);
      assert cliques[..i + 1] == cliques[..i] + [cliques[i]];
      withWeights := withWeights + [Weighted(cliques[i], avgWeight)];
    }
    assert cliques[..|cliques|] == cliques;
    var byWeight := SortHeaviestFirst(withWeights);
    WeightsOfPermutation(D, withWeights, byWeight);
    CliquesOfPermutation(withWeights, byWeight);
    sorted := [];
    for i := 0 to |byWeight|
      invariant sorted == CliquesOf(byWeight[..i])
    {
      CliquesOfAppend(byWeight[..i], [byWeight[i]]);
      assert byWeight[..i + 1] == byWeight[..i] + [byWeight[i]];
      sorted := sorted + [byWeight[i].clique];
    }
    assert byWeight[..|byWeight|] == byWeight;
  }

  // ---------------------------------------------------------------------
  // findNodeWithHighestDegree

  /** The number of positive entries of a row. */
  function PositiveCount(row: seq<real>): nat
  {
    if row == [] then 0
    else PositiveCount(row[..|row| - 1]) + (if row[|row| - 1] > 0.0 then 1 else 0)
  }

  /** The degree of node `i`: the number of positive weights in its row. */
  function Degree(A: Matrix, i: nat): nat
    requires i < |A|
  {
    PositiveCount(A[i])
  }

  lemma {:induction false} PositiveCountIsCard(row: seq<real>)
    ensures PositiveCount(row) == |set j | 0 <= j < |row| && row[j] > 0.0|
  {
    if row != [] {
      var m := |row| - 1;
      var front := row[..m];
      PositiveCountIsCard(front);
      var before := set j | 0 <= j < m && front[j] > 0.0;
      var after := set j | 0 <= j < |row| && row[j] > 0.0;
      if row[m] > 0.0 {
        assert after == before + {m};
      } else {
        assert after == before;
      }
    }
  }

  /** The degree counts the neighbours of `i` in the positive-weight graph. */
  lemma DegreeCountsNeighbours(A: Matrix, i: nat)
    requires IsSquare(A, |A|) && i < |A|
    ensures Degree(A, i) == |set j | 0 <= j < |A| && Positive(A)[i][j]|
  {
    PositiveCountIsCard(A[i]);
    assert (set j | 0 <= j < |A| && Positive(A)[i][j]) == (set j | 0 <= j < |A[i]| && A[i][j] > 0.0);
  }

  /** `node` is the first node of largest degree among those not skipped. */
  predicate HighestDegreeNode(A: Matrix, skipNodes: seq<int>, node: int)
    requires IsSquare(A, |A|)
  {
    && 0 <= node < |A| && node !in skipNodes
    && (forall x :: 0 <= x < |A| && x !in skipNodes ==> Degree(A, x) <= Degree(A, node))
    && (forall x :: 0 <= x < node && x !in skipNodes ==> Degree(A, x) < Degree(A, node))
  }

  /** `findNodeWithHighestDegree`: the first node of largest degree among
      those not skipped, or -1 when every node is skipped. */
  method FindNodeWithHighestDegree(A: Matrix, skipNodes: seq<int>) returns (node: int)
    requires IsSquare(A, |A|)
    ensures node == -1 <==> forall x :: 0 <= x < |A| ==> x in skipNodes
    ensures node != -1 ==> HighestDegreeNode(A, skipNodes, node)
  {
    var maxDegree := -1;
    node := -1;
    for i := 0 to |A|
      invariant node == -1 <==> forall x :: 0 <= x < i ==> x in skipNodes
      invariant node == -1 ==> maxDegree == -1
      invariant node != -1 ==> 0 <= node < i && node !in skipNodes && maxDegree == Degree(A, node)
      invariant node != -1 ==> forall x :: 0 <= x < i && x !in skipNodes ==> Degree(A, x) <= maxDegree
      invariant node != -1 ==> forall x :: 0 <= x < node && x !in skipNodes ==> Degree(A, x) < maxDegree
    {
      if i !in skipNodes {
        var degree := 0;
        for j := 0 to |A[i]|
          invariant degree == PositiveCount(A[i][..j])
        {
          assert A[i][..j + 1][..j] == A[i][..j];
          if A[i][j] > 0.0 {
            degree := degree + 1;
          }
        }
        assert A[i][..|A[i]|] == A[i];
        if degree > maxDegree {
          maxDegree := degree;
          node := i;
        }
      }
    }
  }

  // ---------------------------------------------------------------------
  // computeSubgraphDistanceMatrix and findSubgraphCentroid

  /** The weights among the listed nodes, indexed by position. */
  function Subgraph(A: Matrix, sub: seq<int>): (S: Matrix)
    requires IsSquare(A, |A|) && InNodes(|A|, sub)
    ensures IsSquare(S, |sub|)
  {
    seq(|sub|, i requires 0 <= i < |sub| =>
      seq(|sub|, j requires 0 <= j < |sub| => A[sub[i]][sub[j]]))
  }

  /** The subgraph holds exactly the weights the filtered adjacency matrix
      keeps for the same nodes. */
  lemma SubgraphOfFiltered(A: Matrix, sub: seq<int>)
    requires IsSquare(A, |A|) && InNodes(|A|, sub)
    ensures forall i, j :: 0 <= i < |sub| && 0 <= j < |sub| ==>
      Subgraph(A, sub)[i][j] == Filtered(A, sub)[sub[i]][sub[j]]
  {
    forall i, j | 0 <= i < |sub| && 0 <= j < |sub|
      ensures Subgraph(A, sub)[i][j] == Filtered(A, sub)[sub[i]][sub[j]]
    {
      assert sub[i] in sub && sub[j] in sub;
    }
  }

  /** `computeSubgraphDistanceMatrix`: a zero matrix, then filled. */
  method ComputeSubgraphDistanceMatrix(A: Matrix, sub: seq<int>) returns (D: array2<real>)
    requires IsSquare(A, |A|) && InNodes(|A|, sub)
    ensures fresh(D) && D.Length0 == |sub| && D.Length1 == |sub|
    ensures forall i, j :: 0 <= i < |sub| && 0 <= j < |sub| ==> D[i, j] == Subgraph(A, sub)[i][j]
  {
    var n := |sub|;
    D := new real[n, n]((i, j) => 0.0);
    for i := 0 to n
      invariant forall x, y :: 0 <= x < i && 0 <= y < n ==> D[x, y] == Subgraph(A, sub)[x][y]
    {
      for j := 0 to n
        invariant forall x, y :: 0 <= x < i && 0 <= y < n ==> D[x, y] == Subgraph(A, sub)[x][y]
        invariant forall y :: 0 <= y < j ==> D[i, y] == Subgraph(A, sub)[i][y]
      {
        D[i, j] := A[sub[i]][sub[j]];
      }
    }
  }

  /** The total weight from position `i` to every position of the subgraph. */
  function RowTotal(A: Matrix, sub: seq<int>, i: nat): real
    requires IsSquare(A, |A|) && InNodes(|A|, sub) && i < |sub|
  {
    Sum(Subgraph(A, sub)[i])
  }

  /** Position `i` has the least row total, and every earlier position a
      larger one. */
  predicate FirstLightest(A: Matrix, sub: seq<int>, i: nat)
    requires IsSquare(A, |A|) && InNodes(|A|, sub) && i < |sub|
  {
    (forall j :: 0 <= j < |sub| ==> RowTotal(A, sub, i) <= RowTotal(A, sub, j))
    && (forall j :: 0 <= j < i ==> RowTotal(A, sub, j) > RowTotal(A, sub, i))
  }

  lemma SumPrefixStep(s: seq<real>, j: nat)
    requires j < |s|
    ensures Sum(s[..j + 1]) == Sum(s[..j]) + s[j]
  {
    assert s[..j + 1][..j] == s[..j];
  }

  /** The inner loop of `findSubgraphCentroid`: row `i` of the subgraph
      matrix, summed. */
  method RowSum(A: Matrix, sub: seq<int>, D: array2<real>, i: nat) returns (distanceSum: real)
    requires IsSquare(A, |A|) && InNodes(|A|, sub) && i < |sub|
    requires D.Length0 == |sub| && D.Length1 == |sub|
    requires forall x, y :: 0 <= x < |sub| && 0 <= y < |sub| ==> D[x, y] == Subgraph(A, sub)[x][y]
    ensures distanceSum == RowTotal(A, sub, i)
  {
    distanceSum := 0.0;
    for j := 0 to D.Length1
      invariant distanceSum == Sum(Subgraph(A, sub)[i][..j])
    {
      SumPrefixStep(Subgraph(A, sub)[i], j);
      distanceSum := distanceSum + D[i, j];
    }
    assert Subgraph(A, sub)[i][..|sub|] == Subgraph(A, sub)[i];
  }

  /** `findSubgraphCentroid`: the node whose total weight to the rest of
      the subgraph is least, the first one on ties. */
  method FindSubgraphCentroid(A: Matrix, sub: seq<int>) returns (centroid: int)
    requires IsSquare(A, |A|) && InNodes(|A|, sub) && |sub| >= 1
    ensures exists i :: 0 <= i < |sub| && centroid == sub[i] && FirstLightest(A, sub, i)
  {
    var D := ComputeSubgraphDistanceMatrix(A, sub);
    var index := -1;
    var minSum := 0.0;
    for i := 0 to D.Length0
      invariant index == -1 <==> i == 0
      invariant forall x, y :: 0 <= x < |sub| && 0 <= y < |sub| ==> D[x, y] == Subgraph(A, sub)[x][y]
      invariant index != -1 ==> 0 <= index < i && minSum == RowTotal(A, sub, index)
      invariant index != -1 ==> forall j :: 0 <= j < i ==> minSum <= RowTotal(A, sub, j)
      invariant index != -1 ==> forall j :: 0 <= j < index ==> RowTotal(A, sub, j) > minSum
    {
      var distanceSum := RowSum(A, sub, D, i);
      if index == -1 || distanceSum < minSum {
        minSum := distanceSum;
        index := i;
      }
    }
    centroid := sub[index];
  }

  // ---------------------------------------------------------------------
  // localExpansion: growing a clique into a seed

  /** The first clique holding `node`, or -1 when none does. */
  method FirstCliqueWith(cliques: seq<seq<int>>, node: int) returns (idx: int)
    ensures -1 <= idx < |cliques|
    ensures idx == -1 <==> forall c :: 0 <= c < |cliques| ==> node !in cliques[c]
    ensures idx != -1 ==> node in cliques[idx] && forall c :: 0 <= c < idx ==> node !in cliques[c]
  {
    idx := -1;
    var c := 0;
    while c < |cliques| && idx == -1
      invariant 0 <= c <= |cliques|
      invariant idx == -1 ==> forall d :: 0 <= d < c ==> node !in cliques[d]
      invariant idx != -1 ==> 0 <= idx < |cliques| && node in cliques[idx]
      invariant idx != -1 ==> forall d :: 0 <= d < idx ==> node !in cliques[d]
      decreases |cliques| - c, if idx == -1 then 1 else 0
    {
      if node in cliques[c] {
        idx := c;
      } else {
        c := c + 1;
      }
    }
  }

  /** Sorting with a comparator that reads the first element while it is
      being moved: only the outcome being a permutation is certain. */
  method ArbitraryOrder(xs: seq<int>) returns (ys: seq<int>)
    ensures multiset(ys) == multiset(xs)
  {
    ys := [];
    var rest := xs;
    while rest != []
      invariant multiset(ys) + multiset(rest) == multiset(xs)
      decreases |rest|
    {
      var m :| 0 <= m < |rest|;
      assert rest == rest[..m] + [rest[m]] + rest[m + 1..];
      ys := ys + [rest[m]];
      rest := rest[..m] + rest[m + 1..];
    }
  }

  lemma SnocPrefix(s: seq<int>, x: int, t: nat)
    requires t <= |s|
    ensures (s + [x])[..t] == s[..t]
  {
  }

  lemma WholePrefix(s: seq<int>)
    ensures s[..|s|] == s
  {
  }

  /** `grown` extends `chosen` by distinct unselected nodes, each of which
      raised the fitness strictly when it was appended. */
  ghost predicate GrownBy(chosen: seq<int>, unselected: set<int>, fitness: seq<int> -> real, grown: seq<int>)
  {
    |grown| >= |chosen| && grown[..|chosen|] == chosen
    && forall t :: |chosen| <= t < |grown| ==>
      grown[t] in unselected && grown[t] !in grown[..t] && fitness(grown[..t + 1]) > fitness(grown[..t])
  }

  /** Every visited node left out was offered at some length of the growing
      list, recorded in `rejectedAt`, and did not raise the fitness there. */
  ghost predicate RejectedAt(chosen: seq<int>, fitness: seq<int> -> real, grown: seq<int>,
                             visited: set<int>, rejectedAt: map<int, nat>)
  {
    forall u :: u in visited && u !in grown ==>
      u in rejectedAt && |chosen| <= rejectedAt[u] <= |grown|
      && fitness(grown[..rejectedAt[u]] + [u]) <= fitness(grown[..rejectedAt[u]])
  }

  lemma AcceptStep(chosen: seq<int>, unselected: set<int>, fitness: seq<int> -> real, grown: seq<int>,
                   visited: set<int>, rejectedAt: map<int, nat>, node: int)
    requires GrownBy(chosen, unselected, fitness, grown) && RejectedAt(chosen, fitness, grown, visited, rejectedAt)
    requires node in unselected && node !in grown && fitness(grown + [node]) > fitness(grown)
    ensures GrownBy(chosen, unselected, fitness, grown + [node])
    ensures RejectedAt(chosen, fitness, grown + [node], visited + {node}, rejectedAt)
  {
    AcceptGrows(chosen, unselected, fitness, grown, node);
    AcceptKeepsRejected(chosen, fitness, grown, visited, rejectedAt, node);
  }

  lemma AcceptGrows(chosen: seq<int>, unselected: set<int>, fitness: seq<int> -> real, grown: seq<int>, node: int)
    requires GrownBy(chosen, unselected, fitness, grown)
    requires node in unselected && node !in grown && fitness(grown + [node]) > fitness(grown)
    ensures GrownBy(chosen, unselected, fitness, grown + [node])
  {
    var g := grown + [node];
    SnocPrefix(grown, node, |chosen|);
    forall t | |chosen| <= t < |g|
      ensures g[t] in unselected && g[t] !in g[..t] && fitness(g[..t + 1]) > fitness(g[..t])
    {
      SnocPrefix(grown, node, t);
      if t < |grown| {
        SnocPrefix(grown, node, t + 1);
      } else {
        WholePrefix(grown);
        WholePrefix(g);
      }
    }
  }

  lemma AcceptKeepsRejected(chosen: seq<int>, fitness: seq<int> -> real, grown: seq<int>,
                            visited: set<int>, rejectedAt: map<int, nat>, node: int)
    requires RejectedAt(chosen, fitness, grown, visited, rejectedAt)
    ensures RejectedAt(chosen, fitness, grown + [node], visited + {node}, rejectedAt)
  {
    var g := grown + [node];
    forall u | u in visited + {node} && u !in g
      ensures u in rejectedAt && |chosen| <= rejectedAt[u] <= |g|
        && fitness(g[..rejectedAt[u]] + [u]) <= fitness(g[..rejectedAt[u]])
    {
      SnocPrefix(grown, node, rejectedAt[u]);
    }
  }

  lemma RejectStep(chosen: seq<int>, unselected: set<int>, fitness: seq<int> -> real, grown: seq<int>,
                   visited: set<int>, rejectedAt: map<int, nat>, node: int)
    requires GrownBy(chosen, unselected, fitness, grown) && RejectedAt(chosen, fitness, grown, visited, rejectedAt)
    requires fitness(grown + [node]) <= fitness(grown)
    ensures RejectedAt(chosen, fitness, grown, visited + {node}, rejectedAt[node := |grown|])
  {
    WholePrefix(grown);
  }

  lemma RejectedWitness(chosen: seq<int>, fitness: seq<int> -> real, grown: seq<int>,
                        visited: set<int>, rejectedAt: map<int, nat>)
    requires RejectedAt(chosen, fitness, grown, visited, rejectedAt)
    ensures forall u :: u in visited && u !in grown ==>
      exists t :: |chosen| <= t <= |grown| && fitness(grown[..t] + [u]) <= fitness(grown[..t])
  {
    forall u | u in visited && u !in grown
      ensures exists t :: |chosen| <= t <= |grown| && fitness(grown[..t] + [u]) <= fitness(grown[..t])
    {
      var t := rejectedAt[u];
      assert fitness(grown[..t] + [u]) <= fitness(grown[..t]);
    }
  }

  /** The greedy growth of a clique: the unselected nodes are visited in
      unspecified order, and each one not yet in the clique is appended when
      that raises the fitness strictly. */
  method Expand(chosen: seq<int>, unselected: set<int>, fitness: seq<int> -> real) returns (grown: seq<int>)
    ensures |grown| >= |chosen| && grown[..|chosen|] == chosen
    ensures forall t :: |chosen| <= t < |grown| ==>
      grown[t] in unselected && grown[t] !in grown[..t] && fitness(grown[..t + 1]) > fitness(grown[..t])
    ensures forall u :: u in unselected && u !in grown ==>
      exists t :: |chosen| <= t <= |grown| && fitness(grown[..t] + [u]) <= fitness(grown[..t])
  {
    grown := chosen;
    var fitnessValue := fitness(grown);
    var rest := unselected;
    ghost var visited: set<int> := {};
    ghost var rejectedAt: map<int, nat> := map[];
    WholePrefix(chosen);
    while rest != {}
      invariant rest <= unselected && visited == unselected - rest
      invariant fitnessValue == fitness(grown)
      invariant GrownBy(chosen, unselected, fitness, grown)
      invariant RejectedAt(chosen, fitness, grown, visited, rejectedAt)
      decreases rest
    {
      ghost var some := Witness(rest);
      var node :| node in rest;
      rest := rest - {node};
      if node !in grown {
        var tempClique := grown + [node];
        var f := fitness(tempClique);
        if f > fitnessValue {
          AcceptStep(chosen, unselected, fitness, grown, visited, rejectedAt, node);
          fitnessValue := f;
          grown := tempClique;
        } else {
          RejectStep(chosen, unselected, fitness, grown, visited, rejectedAt, node);
          rejectedAt := rejectedAt[node := |grown|];
        }
      }
      visited := visited + {node};
    }
    RejectedWitness(chosen, fitness, grown, visited, rejectedAt);
  }

  /** `unselectedNodes` after erasing every node of the clique. */
  method EraseAll(unselected: set<int>, clique: seq<int>) returns (r: set<int>)
    ensures r == unselected - Members(clique)
  {
    r := unselected;
    for t := 0 to |clique|
      invariant r == unselected - Members(clique[..t])
    {
      assert clique[..t + 1] == clique[..t] + [clique[t]];
      assert Members(clique[..t + 1]) == Members(clique[..t]) + {clique[t]};
      r := r - {clique[t]};
    }
    assert clique[..|clique|] == clique;
  }

  // ---------------------------------------------------------------------
  // localExpansion: pruning the remaining cliques

  /** The `copy_if` keeping a clique's still unselected nodes, in order. */
  function Survivors(c: seq<int>, U: set<int>): (r: seq<int>)
    ensures |r| <= |c|
  {
    if c == [] then []
    else Survivors(c[..|c| - 1], U) + (if c[|c| - 1] in U then [c[|c| - 1]] else [])
  }

  lemma {:induction false} SurvivorsMember(c: seq<int>, U: set<int>, x: int)
    ensures x in Survivors(c, U) <==> x in c && x in U
  {
    if c != [] {
      SurvivorsMember(c[..|c| - 1], U, x);
      assert c == c[..|c| - 1] + [c[|c| - 1]];
    }
  }

  method CopyUnselected(c: seq<int>, U: set<int>) returns (r: seq<int>)
    ensures r == Survivors(c, U)
  {
    r := [];
    for t := 0 to |c|
      invariant r == Survivors(c[..t], U)
    {
      assert c[..t + 1][..t] == c[..t];
      if c[t] in U {
        r := r + [c[t]];
      }
    }
    assert c[..|c|] == c;
  }

  /** The surviving part of every clique that keeps more than two nodes. */
  function Pruned(cs: seq<seq<int>>, U: set<int>): (r: seq<seq<int>>)
    ensures |r| <= |cs|
  {
    if cs == [] then []
    else
      var s := Survivors(cs[|cs| - 1], U);
      Pruned(cs[..|cs| - 1], U) + (if |s| > 2 then [s] else [])
  }

  /** Every kept list is the survivors of some clique, more than two long. */
  lemma {:induction false} PrunedSound(cs: seq<seq<int>>, U: set<int>)
    ensures forall i :: 0 <= i < |Pruned(cs, U)| ==>
      |Pruned(cs, U)[i]| > 2 && exists j :: 0 <= j < |cs| && Pruned(cs, U)[i] == Survivors(cs[j], U)
  {
    if cs != [] {
      var front := cs[..|cs| - 1];
      PrunedSound(front, U);
      forall i | 0 <= i < |Pruned(cs, U)|
        ensures |Pruned(cs, U)[i]| > 2 && exists j :: 0 <= j < |cs| && Pruned(cs, U)[i] == Survivors(cs[j], U)
      {
        if i < |Pruned(front, U)| {
          var j :| 0 <= j < |front| && Pruned(front, U)[i] == Survivors(front[j], U);
          assert cs[j] == front[j];
        } else {
          assert Pruned(cs, U)[i] == Survivors(cs[|cs| - 1], U);
        }
      }
    }
  }

  /** No clique that keeps more than two nodes is dropped. */
  lemma {:induction false} PrunedComplete(cs: seq<seq<int>>, U: set<int>, j: nat)
    requires j < |cs| && |Survivors(cs[j], U)| > 2
    ensures Survivors(cs[j], U) in Pruned(cs, U)
  {
    var front := cs[..|cs| - 1];
    if j < |cs| - 1 {
      assert cs[j] == front[j];
      PrunedComplete(front, U, j);
    }
  }

  method PruneCliques(cs: seq<seq<int>>, U: set<int>) returns (r: seq<seq<int>>)
    ensures r == Pruned(cs, U)
  {
    r := [];
    for t := 0 to |cs|
      invariant r == Pruned(cs[..t], U)
    {
      var updatedClique := CopyUnselected(cs[t], U);
      assert cs[..t + 1][..t] == cs[..t];
      if |updatedClique| > 2 {
        r := r + [updatedClique];
      }
    }
    assert cs[..|cs|] == cs;
  }

  // ---------------------------------------------------------------------
  // localExpansion: the first phase

  /** Nodes not yet skipped: the measure of rounds that find no clique. */
  function Unskipped(n: nat, skipNodes: seq<int>): set<int>
  {
    set i | 0 <= i < n && i !in skipNodes
  }

  /** Every remaining clique has more than two nodes, all of them unselected
      and none skipped. */
  predicate Pending(cliques: seq<seq<int>>, unselected: set<int>, skipNodes: seq<int>)
  {
    forall c :: 0 <= c < |cliques| ==>
      |cliques[c]| > 2 && forall x :: x in cliques[c] ==> x in unselected && x !in skipNodes
  }

  lemma PendingWithout(cliques: seq<seq<int>>, idx: nat, unselected: set<int>, skipNodes: seq<int>)
    requires idx < |cliques| && Pending(cliques, unselected, skipNodes)
    ensures Pending(cliques[..idx] + cliques[idx + 1..], unselected, skipNodes)
  {
    var rest := cliques[..idx] + cliques[idx + 1..];
    forall c | 0 <= c < |rest|
      ensures rest[c] == cliques[if c < idx then c else c + 1]
    {
    }
  }

  lemma PendingPruned(cliques: seq<seq<int>>, unselected: set<int>, skipNodes: seq<int>, U: set<int>)
    requires Pending(cliques, unselected, skipNodes)
    ensures Pending(Pruned(cliques, U), U, skipNodes)
  {
    PrunedSound(cliques, U);
    var r := Pruned(cliques, U);
    forall c, x | 0 <= c < |r| && x in r[c]
      ensures x in U && x !in skipNodes
    {
      var j :| 0 <= j < |cliques| && r[c] == Survivors(cliques[j], U);
      SurvivorsMember(cliques[j], U, x);
    }
  }

  lemma SkipShrinks(n: nat, skipNodes: seq<int>, node: int)
    requires 0 <= node < n && node !in skipNodes
    ensures Unskipped(n, skipNodes + [node]) < Unskipped(n, skipNodes)
  {
    assert node in Unskipped(n, skipNodes) && node !in Unskipped(n, skipNodes + [node]);
  }

  /** The nodes `0 .. n-1`, as `unselectedNodes` starts. */
  function NodeSet(n: nat): (r: set<int>)
    ensures forall x :: x in r <==> 0 <= x < n
  {
    if n == 0 then {} else NodeSet(n - 1) + {n - 1}
  }

  /** The nodes of all the grown cliques. */
  ghost function Covered(grown: seq<seq<int>>): set<int>
  {
    if grown == [] then {} else Covered(grown[..|grown| - 1]) + Members(grown[|grown| - 1])
  }

  lemma CoveredSnoc(grown: seq<seq<int>>, g: seq<int>)
    ensures Covered(grown + [g]) == Covered(grown) + Members(g)
  {
    assert (grown + [g])[..|grown|] == grown;
  }

  lemma {:induction false} CoveredMember(grown: seq<seq<int>>, x: int)
    ensures x in Covered(grown) <==> exists t :: 0 <= t < |grown| && x in grown[t]
  {
    if grown != [] {
      var init := grown[..|grown| - 1];
      CoveredMember(init, x);
      if x in Covered(init) {
        var t :| 0 <= t < |init| && x in init[t];
        assert grown[t] == init[t];
      }
    }
  }

  /** The nodes still unselected when seed round `t` began. */
  ghost function Before(n: nat, grown: seq<seq<int>>, t: nat): set<int>
    requires t <= |grown|
  {
    NodeSet(n) - Covered(grown[..t])
  }

  lemma BeforeSnoc(n: nat, grown: seq<seq<int>>, g: seq<int>)
    ensures forall t :: 0 <= t <= |grown| ==> Before(n, grown + [g], t) == Before(n, grown, t)
    ensures Before(n, grown, |grown|) == NodeSet(n) - Covered(grown)
  {
    forall t | 0 <= t <= |grown| ensures Before(n, grown + [g], t) == Before(n, grown, t) {
      assert (grown + [g])[..t] == grown[..t];
    }
    assert grown[..|grown|] == grown;
  }

  /** `sorted` is what `findAndSortCliquesByAverageWeight` returns: the
      cliques of at least three nodes, heaviest average distance first. */
  ghost predicate HeaviestCliques(A: Matrix, D: Matrix, sorted: seq<seq<int>>)
    requires IsSquare(A, |A|) && IsSquare(D, |A|) && NoSelfLoops(A)
  {
    && multiset(sorted) == multiset(AllCliques(Positive(A), 3))
    && (forall i :: 0 <= i < |sorted| ==> |sorted[i]| >= 3 && InNodes(|A|, sorted[i]))
    && (forall i, j :: 0 <= i < j < |sorted| ==> Average(D, sorted[i]) >= Average(D, sorted[j]))
  }

  /** `g` starts with some order of `S` and grows it as `Expand` does over
      the unselected set `U`. */
  ghost predicate GrownFrom(S: seq<int>, U: set<int>, fitness: seq<int> -> real, g: seq<int>)
  {
    && |g| >= |S| && multiset(g[..|S|]) == multiset(S)
    && GrownBy(g[..|S|], U, fitness, g)
    && forall u :: u in U && u !in g ==> exists t :: |S| <= t <= |g| && fitness(g[..t] + [u]) <= fitness(g[..t])
  }

  /** A seed round that began with the unselected set `U` and the skip list
      `skip`, when the pending cliques are `Pruned(sorted, U)`: `seed` is
      the first node of highest degree not skipped; no skipped node is in a
      pending clique; and the first pending clique holding `seed` was grown
      into `g`. */
  ghost predicate RoundTook(A: Matrix, sorted: seq<seq<int>>, fitness: seq<int> -> real, U: set<int>,
                            skip: seq<int>, seed: int, g: seq<int>)
    requires IsSquare(A, |A|)
  {
    var pending := Pruned(sorted, U);
    && HighestDegreeNode(A, skip, seed)
    && (forall i, x :: 0 <= i < |pending| && x in pending[i] ==> x !in skip)
    && exists i :: 0 <= i < |pending| && seed in pending[i] && (forall j :: 0 <= j < i ==> seed !in pending[j])
         && GrownFrom(pending[i], U, fitness, g)
  }

  /** Round `t` began with the unselected set `Before(|A|, grown, t)` and
      the skip list `skips[t]`, and took `seeds[t]`, which its grown clique
      `grown[t]` holds. */
  ghost predicate Rounds(A: Matrix, sorted: seq<seq<int>>, fitness: seq<int> -> real, seeds: seq<int>,
                         skips: seq<seq<int>>, grown: seq<seq<int>>)
    requires IsSquare(A, |A|)
  {
    && |skips| == |seeds| && |grown| == |seeds|
    && forall t :: 0 <= t < |seeds| ==>
         seeds[t] in grown[t] && RoundTook(A, sorted, fitness, Before(|A|, grown, t), skips[t], seeds[t], grown[t])
  }

  lemma RoundsSnoc(A: Matrix, sorted: seq<seq<int>>, fitness: seq<int> -> real, seeds: seq<int>,
                   skips: seq<seq<int>>, grown: seq<seq<int>>, seed: int, skip: seq<int>, g: seq<int>)
    requires IsSquare(A, |A|) && Rounds(A, sorted, fitness, seeds, skips, grown)
    requires seed in g && RoundTook(A, sorted, fitness, NodeSet(|A|) - Covered(grown), skip, seed, g)
    ensures Rounds(A, sorted, fitness, seeds + [seed], skips + [skip], grown + [g])
  {
    var seeds', skips', grown' := seeds + [seed], skips + [skip], grown + [g];
    BeforeSnoc(|A|, grown, g);
    forall t | 0 <= t < |seeds'|
      ensures seeds'[t] in grown'[t] && RoundTook(A, sorted, fitness, Before(|A|, grown', t), skips'[t], seeds'[t], grown'[t])
    {
      if t < |seeds| {
        assert seeds'[t] == seeds[t] && skips'[t] == skips[t] && grown'[t] == grown[t];
        assert Before(|A|, grown', t) == Before(|A|, grown, t);
      } else {
        assert seeds'[t] == seed && skips'[t] == skip && grown'[t] == g;
        assert Before(|A|, grown', t) == NodeSet(|A|) - Covered(grown);
      }
    }
  }

  /** What the first loop of `localExpansion` achieves. `sorted` is the
      heaviest-first clique list it starts from; round `t` began with the
      unselected set `Before(|A|, grown, t)` and the skip list `skips[t]`,
      took `seeds[t]` and grew its clique into `grown[t]`, as `Rounds` and
      `RoundTook` state; the unselected nodes are those no grown clique
      took; and the loop stopped with `k` seeds or with no clique keeping
      more than two unselected nodes. */
  ghost predicate CliquePhase(A: Matrix, D: Matrix, k: int, fitness: seq<int> -> real, sorted: seq<seq<int>>,
                              seeds: seq<int>, unselected: set<int>, skips: seq<seq<int>>, grown: seq<seq<int>>)
    requires IsSquare(A, |A|) && IsSquare(D, |A|) && NoSelfLoops(A)
  {
    var all := AllCliques(Positive(A), 3);
    && HeaviestCliques(A, D, sorted)
    && Rounds(A, sorted, fitness, seeds, skips, grown)
    && unselected == NodeSet(|A|) - Covered(grown)
    && (|seeds| == (if k > 0 then k else 0)
        || forall c :: 0 <= c < |all| ==> |Survivors(all[c], unselected)| <= 2)
  }

  /** The invariant of the first loop: the pending cliques are the parts of
      the sorted cliques that keep more than two unselected nodes. */
  ghost predicate SeedsInv(A: Matrix, k: int, fitness: seq<int> -> real, sorted: seq<seq<int>>, seeds: seq<int>,
                           unselected: set<int>, skipNodes: seq<int>, cliques: seq<seq<int>>,
                           skips: seq<seq<int>>, grown: seq<seq<int>>)
    requires IsSquare(A, |A|)
  {
    && |seeds| <= (if k > 0 then k else 0) && Distinct(seeds)
    && Rounds(A, sorted, fitness, seeds, skips, grown)
    && unselected == NodeSet(|A|) - Covered(grown)
    && cliques == Pruned(sorted, unselected)
    && Pending(cliques, unselected, skipNodes)
  }

  /** A clique whose nodes all lie in `U` survives whole. */
  lemma {:induction false} SurvivorsWhole(c: seq<int>, U: set<int>)
    requires Inside(c, U)
    ensures Survivors(c, U) == c
  {
    if c != [] {
      var init, x := c[..|c| - 1], c[|c| - 1];
      assert c == init + [x];
      assert forall y :: y in init ==> y in c;
      SurvivorsWhole(init, U);
      assert Survivors(c, U) == Survivors(init, U) + [x];
    }
  }

  /** Filtering twice, by a set and then by a smaller one, is filtering by
      the smaller one. */
  lemma {:induction false} SurvivorsTwice(c: seq<int>, U: set<int>, V: set<int>)
    requires V <= U
    ensures Survivors(Survivors(c, U), V) == Survivors(c, V)
  {
    if c != [] {
      var init := c[..|c| - 1];
      var x := c[|c| - 1];
      SurvivorsTwice(init, U, V);
      if x in U {
        assert Survivors(c, U) == Survivors(init, U) + [x];
        SurvivorsSnoc(Survivors(init, U), V, x);
      } else {
        assert Survivors(c, U) == Survivors(init, U);
        assert Survivors(c, V) == Survivors(init, V);
      }
    }
  }

  lemma SurvivorsSnoc(c: seq<int>, V: set<int>, x: int)
    ensures Survivors(c + [x], V) == Survivors(c, V) + (if x in V then [x] else [])
  {
    assert (c + [x])[..|c|] == c;
  }

  /** A clique none of whose nodes is in `V` has no survivors. */
  lemma NoSurvivors(c: seq<int>, V: set<int>)
    requires forall x :: x in c ==> x !in V
    ensures Survivors(c, V) == []
  {
    if Survivors(c, V) != [] {
      SurvivorsMember(c, V, Survivors(c, V)[0]);
    }
  }

  /** Pruning distributes over concatenation. */
  lemma {:induction false} PrunedAppend(a: seq<seq<int>>, b: seq<seq<int>>, V: set<int>)
    ensures Pruned(a + b, V) == Pruned(a, V) + Pruned(b, V)
  {
    if b == [] {
      assert a + b == a;
    } else {
      var init := b[..|b| - 1];
      PrunedAppend(a, init, V);
      assert (a + b)[..|a + b| - 1] == a + init;
    }
  }

  /** Pruning twice, by a set and then by a smaller one, is pruning by the
      smaller one. */
  lemma {:induction false} PrunedTwice(cs: seq<seq<int>>, U: set<int>, V: set<int>)
    requires V <= U
    ensures Pruned(Pruned(cs, U), V) == Pruned(cs, V)
  {
    if cs != [] {
      var init, x := cs[..|cs| - 1], cs[|cs| - 1];
      PrunedTwice(init, U, V);
      var s := Survivors(x, U);
      var kept := if |s| > 2 then [s] else [];
      PrunedAppend(Pruned(init, U), kept, V);
      SurvivorsTwice(x, U, V);
      assert |Survivors(s, V)| <= |s|;
      if |s| > 2 {
        assert Pruned(kept, V) == Pruned([], V) + (if |Survivors(s, V)| > 2 then [Survivors(s, V)] else []);
      }
    }
  }

  /** Cliques of more than two nodes, all in `U`, are pruned to themselves. */
  lemma {:induction false} PrunedWhole(cs: seq<seq<int>>, U: set<int>)
    requires forall i :: 0 <= i < |cs| ==> |cs[i]| > 2 && Inside(cs[i], U)
    ensures Pruned(cs, U) == cs
  {
    if cs != [] {
      var init, x := cs[..|cs| - 1], cs[|cs| - 1];
      assert forall i :: 0 <= i < |init| ==> init[i] == cs[i];
      PrunedWhole(init, U);
      SurvivorsWhole(x, U);
      assert Pruned(cs, U) == Pruned(init, U) + [x];
      assert cs == init + [x];
    }
  }

  /** Every node of `c` is in `U`. */
  predicate Inside(c: seq<int>, U: set<int>)
  {
    forall x :: x in c ==> x in U
  }

  /** Dropping the chosen clique, which keeps no node of `V`, and pruning the
      rest by `V` gives the sorted cliques pruned by `V`. */
  lemma PrunedAfterSeed(sorted: seq<seq<int>>, U: set<int>, V: set<int>, idx: nat)
    requires V <= U && idx < |Pruned(sorted, U)|
    requires forall x :: x in Pruned(sorted, U)[idx] ==> x !in V
    ensures var X := Pruned(sorted, U); Pruned(X[..idx] + X[idx + 1..], V) == Pruned(sorted, V)
  {
    PrunedDrop(Pruned(sorted, U), idx, V);
    PrunedTwice(sorted, U, V);
  }

  /** Dropping a clique that keeps no node of `V` does not change the
      pruning by `V`. */
  lemma PrunedDrop(X: seq<seq<int>>, idx: nat, V: set<int>)
    requires idx < |X| && forall x :: x in X[idx] ==> x !in V
    ensures Pruned(X[..idx] + X[idx + 1..], V) == Pruned(X, V)
  {
    var front, mid, back := X[..idx], [X[idx]], X[idx + 1..];
    assert X == (front + mid) + back;
    assert X[..idx] + X[idx + 1..] == front + back;
    NoSurvivors(X[idx], V);
    assert Pruned(mid, V) == Pruned([], V) + [];
    calc {
      Pruned(X, V);
      { PrunedAppend(front + mid, back, V); }
      Pruned(front + mid, V) + Pruned(back, V);
      { PrunedAppend(front, mid, V); }
      Pruned(front, V) + Pruned(mid, V) + Pruned(back, V);
      Pruned(front, V) + Pruned(back, V);
      { PrunedAppend(front, back, V); }
      Pruned(front + back, V);
    }
  }

  /** When nothing is pending, no clique keeps more than two unselected
      nodes. */
  lemma NoneLeft(all: seq<seq<int>>, sorted: seq<seq<int>>, U: set<int>)
    requires multiset(sorted) == multiset(all) && Pruned(sorted, U) == []
    ensures forall c :: 0 <= c < |all| ==> |Survivors(all[c], U)| <= 2
  {
    forall c | 0 <= c < |all| ensures |Survivors(all[c], U)| <= 2 {
      assert all[c] in multiset(sorted);
      var j :| 0 <= j < |sorted| && sorted[j] == all[c];
      if |Survivors(sorted[j], U)| > 2 {
        PrunedComplete(sorted, U, j);
      }
    }
  }

  lemma SeedsStart(A: Matrix, k: int, fitness: seq<int> -> real, sorted: seq<seq<int>>)
    requires IsSquare(A, |A|)
    requires forall i :: 0 <= i < |sorted| ==> |sorted[i]| >= 3 && InNodes(|A|, sorted[i])
    ensures SeedsInv(A, k, fitness, sorted, [], NodeSet(|A|), [], sorted, [], [])
  {
    var all := NodeSet(|A|);
    StartPending(|A|, sorted);
    AllInside(|A|, sorted);
    PrunedWhole(sorted, all);
    assert Rounds(A, sorted, fitness, [], [], []);
    assert all - Covered([]) == all;
  }

  lemma AllInside(n: nat, sorted: seq<seq<int>>)
    requires forall i :: 0 <= i < |sorted| ==> InNodes(n, sorted[i])
    ensures forall i :: 0 <= i < |sorted| ==> Inside(sorted[i], NodeSet(n))
  {
    forall i | 0 <= i < |sorted| ensures Inside(sorted[i], NodeSet(n)) {
      WholeInNodes(n, sorted[i]);
    }
  }

  lemma StartPending(n: nat, sorted: seq<seq<int>>)
    requires forall i :: 0 <= i < |sorted| ==> |sorted[i]| >= 3 && InNodes(n, sorted[i])
    ensures Pending(sorted, NodeSet(n), [])
  {
    forall c | 0 <= c < |sorted| ensures forall x :: x in sorted[c] ==> x in NodeSet(n) {
      WholeInNodes(n, sorted[c]);
    }
  }

  lemma WholeInNodes(n: nat, c: seq<int>)
    requires InNodes(n, c)
    ensures forall x :: x in c ==> x in NodeSet(n)
  {
    forall x | x in c ensures x in NodeSet(n) {
      var t :| 0 <= t < |c| && c[t] == x;
    }
  }

  /** A round that finds no clique for its node only grows the skip list. */
  lemma SkipRound(A: Matrix, k: int, fitness: seq<int> -> real, sorted: seq<seq<int>>, seeds: seq<int>,
                  unselected: set<int>, skipNodes: seq<int>, cliques: seq<seq<int>>, skips: seq<seq<int>>,
                  grown: seq<seq<int>>, node: int)
    requires IsSquare(A, |A|)
    requires SeedsInv(A, k, fitness, sorted, seeds, unselected, skipNodes, cliques, skips, grown)
    requires forall c :: 0 <= c < |cliques| ==> node !in cliques[c]
    ensures SeedsInv(A, k, fitness, sorted, seeds, unselected, skipNodes + [node], cliques, skips, grown)
  {
  }

  /** A round that grows the clique at `idx`, the first holding `node`, into
      `g`. */
  lemma SeedRound(A: Matrix, k: int, fitness: seq<int> -> real, sorted: seq<seq<int>>, seeds: seq<int>,
                  unselected: set<int>, skipNodes: seq<int>, cliques: seq<seq<int>>, skips: seq<seq<int>>,
                  grown: seq<seq<int>>, node: int, idx: nat, g: seq<int>, U: set<int>)
    requires IsSquare(A, |A|) && |seeds| < k
    requires SeedsInv(A, k, fitness, sorted, seeds, unselected, skipNodes, cliques, skips, grown)
    requires idx < |cliques| && node in cliques[idx] && HighestDegreeNode(A, skipNodes, node)
    requires forall c :: 0 <= c < idx ==> node !in cliques[c]
    requires GrownFrom(cliques[idx], unselected, fitness, g)
    requires node in g && forall x :: x in cliques[idx] ==> x in g
    requires U == unselected - Members(g)
    ensures SeedsInv(A, k, fitness, sorted, seeds + [node], U, skipNodes, Pruned(cliques[..idx] + cliques[idx + 1..], U),
                     skips + [skipNodes], grown + [g])
  {
    CoveredSnoc(grown, g);
    assert node in unselected;
    forall t | 0 <= t < |seeds| ensures seeds[t] != node {
      CoveredMember(grown, seeds[t]);
    }
    DistinctSnoc(seeds, node);
    assert RoundTook(A, sorted, fitness, unselected, skipNodes, node, g);
    RoundsSnoc(A, sorted, fitness, seeds, skips, grown, node, skipNodes, g);
    PendingWithout(cliques, idx, unselected, skipNodes);
    PendingPruned(cliques[..idx] + cliques[idx + 1..], unselected, skipNodes, U);
    PrunedAfterSeed(sorted, unselected, U, idx);
  }

  /** When the loop stops, the invariant gives the phase's outcome. */
  lemma SeedsEnd(A: Matrix, D: Matrix, k: int, fitness: seq<int> -> real, sorted: seq<seq<int>>, seeds: seq<int>,
                 unselected: set<int>, skipNodes: seq<int>, cliques: seq<seq<int>>, skips: seq<seq<int>>,
                 grown: seq<seq<int>>)
    requires IsSquare(A, |A|) && IsSquare(D, |A|) && NoSelfLoops(A)
    requires HeaviestCliques(A, D, sorted)
    requires SeedsInv(A, k, fitness, sorted, seeds, unselected, skipNodes, cliques, skips, grown)
    requires !(|seeds| < k && cliques != [])
    ensures CliquePhase(A, D, k, fitness, sorted, seeds, unselected, skips, grown)
    ensures InNodes(|A|, seeds)
    ensures forall t :: 0 <= t < |seeds| ==> seeds[t] !in unselected
    ensures forall x :: x in unselected ==> 0 <= x < |A|
  {
    forall t | 0 <= t < |seeds| ensures seeds[t] !in unselected {
      CoveredMember(grown, seeds[t]);
    }
    if |seeds| < k {
      NoneLeft(AllCliques(Positive(A), 3), sorted, unselected);
    }
  }

  /** The communities grown in the first phase are pairwise disjoint: each
      takes only nodes still unselected when its round began. */
  lemma GrownDisjoint(A: Matrix, D: Matrix, k: int, fitness: seq<int> -> real, sorted: seq<seq<int>>,
                      seeds: seq<int>, unselected: set<int>, skips: seq<seq<int>>, grown: seq<seq<int>>)
    requires IsSquare(A, |A|) && IsSquare(D, |A|) && NoSelfLoops(A)
    requires CliquePhase(A, D, k, fitness, sorted, seeds, unselected, skips, grown)
    ensures forall s, t, x :: 0 <= s < t < |grown| && x in grown[s] ==> x !in grown[t]
  {
    forall s, t, x | 0 <= s < t < |grown| && x in grown[s] ensures x !in grown[t] {
      RoundWithin(A, sorted, fitness, Before(|A|, grown, t), skips[t], seeds[t], grown[t]);
      CoveredMember(grown[..t], x);
      assert grown[..t][s] == grown[s];
    }
  }

  /** A round's community lies within the nodes unselected when it began. */
  lemma RoundWithin(A: Matrix, sorted: seq<seq<int>>, fitness: seq<int> -> real, U: set<int>,
                    skip: seq<int>, seed: int, g: seq<int>)
    requires IsSquare(A, |A|) && RoundTook(A, sorted, fitness, U, skip, seed, g)
    ensures forall x :: x in g ==> x in U
  {
    var pending := Pruned(sorted, U);
    var i :| 0 <= i < |pending| && seed in pending[i] && (forall j :: 0 <= j < i ==> seed !in pending[j])
      && GrownFrom(pending[i], U, fitness, g);
    PrunedSound(sorted, U);
    var c :| 0 <= c < |sorted| && pending[i] == Survivors(sorted[c], U);
    forall x | x in pending[i] ensures x in U {
      SurvivorsMember(sorted[c], U, x);
    }
    GrownWithin(pending[i], U, fitness, g);
  }

  lemma GrownWithin(S: seq<int>, U: set<int>, fitness: seq<int> -> real, g: seq<int>)
    requires GrownFrom(S, U, fitness, g) && forall x :: x in S ==> x in U
    ensures forall x :: x in g ==> x in U
  {
    forall x | x in g ensures x in U {
      var i :| 0 <= i < |g| && g[i] == x;
      if i < |S| {
        assert g[..|S|][i] == x;
        assert x in multiset(S);
      }
    }
  }

  /** Expanding some order of a clique grows that clique in the sense of
      `GrownFrom`. */
  lemma ExpandedFrom(chosen: seq<int>, ordered: seq<int>, unselected: set<int>, fitness: seq<int> -> real,
                     expanded: seq<int>)
    requires multiset(ordered) == multiset(chosen)
    requires |expanded| >= |ordered| && expanded[..|ordered|] == ordered
    requires GrownBy(ordered, unselected, fitness, expanded)
    requires forall u :: u in unselected && u !in expanded ==>
      exists t :: |ordered| <= t <= |expanded| && fitness(expanded[..t] + [u]) <= fitness(expanded[..t])
    ensures GrownFrom(chosen, unselected, fitness, expanded)
  {
    assert |ordered| == |multiset(ordered)| == |chosen|;
  }

  /** The first loop of `localExpansion`: while seeds are missing and
      cliques remain, the first clique holding the node of highest degree
      not yet skipped is grown into a new seed's community; the seed is that
      node. The ghost `sorted`, `skips` and `grown` record the clique list
      the loop starts from and each seed's round. */
  method CliqueSeeds(A: Matrix, D: Matrix, k: int, fitness: seq<int> -> real)
    returns (seeds: seq<int>, unselected: set<int>, ghost sorted: seq<seq<int>>,
             ghost skips: seq<seq<int>>, ghost grown: seq<seq<int>>)
    requires IsSquare(A, |A|) && IsSquare(D, |A|) && NoSelfLoops(A)
    ensures |seeds| <= (if k > 0 then k else 0)
    ensures Distinct(seeds) && InNodes(|A|, seeds)
    ensures forall t :: 0 <= t < |seeds| ==> seeds[t] !in unselected
    ensures forall x :: x in unselected ==> 0 <= x < |A|
    ensures CliquePhase(A, D, k, fitness, sorted, seeds, unselected, skips, grown)
  {
    var n := |A|;
    var cliques := FindAndSortCliquesByAverageWeight(D, A);
    sorted := cliques;
    seeds := [];
    unselected := {};
    for i := 0 to n
      invariant forall x :: x in unselected <==> 0 <= x < i
    {
      unselected := unselected + {i};
    }
    assert unselected == NodeSet(n);
    var skipNodes: seq<int> := [];
    skips, grown := [], [];
    SeedsStart(A, k, fitness, sorted);
    var M := 0;
    while M < k && cliques != []
      invariant M == |seeds|
      invariant SeedsInv(A, k, fitness, sorted, seeds, unselected, skipNodes, cliques, skips, grown)
      decreases k - M, Unskipped(n, skipNodes)
    {
      assert cliques[0][0] in cliques[0];
      assert 0 <= cliques[0][0] < n && cliques[0][0] !in skipNodes;
      var maxDegreeNode := FindNodeWithHighestDegree(A, skipNodes);
      var idx := FirstCliqueWith(cliques, maxDegreeNode);
      if idx == -1 {
        SkipShrinks(n, skipNodes, maxDegreeNode);
        SkipRound(A, k, fitness, sorted, seeds, unselected, skipNodes, cliques, skips, grown, maxDegreeNode);
        skipNodes := skipNodes + [maxDegreeNode];
      } else {
        var chosenClique := cliques[idx];
        var ordered := ArbitraryOrder(chosenClique);
        var expanded := Expand(ordered, unselected, fitness);
        GrownHolds(chosenClique, ordered, expanded);
        ExpandedFrom(chosenClique, ordered, unselected, fitness, expanded);
        var remaining := EraseAll(unselected, expanded);
        SeedRound(A, k, fitness, sorted, seeds, unselected, skipNodes, cliques, skips, grown,
                  maxDegreeNode, idx, expanded, remaining);
        cliques := cliques[..idx] + cliques[idx + 1..];
        seeds := seeds + [maxDegreeNode];
        skips, grown := skips + [skipNodes], grown + [expanded];
        unselected := remaining;
        cliques := PruneCliques(cliques, unselected);
        M := M + 1;
      }
    }
    SeedsEnd(A, D, k, fitness, sorted, seeds, unselected, skipNodes, cliques, skips, grown);
  }

  /** With no clique of three or more nodes, the first phase takes no seed
      and leaves every node unselected. */
  lemma NoCliquesNoSeeds(A: Matrix, D: Matrix, k: int, fitness: seq<int> -> real, sorted: seq<seq<int>>,
                         seeds: seq<int>, unselected: set<int>, skips: seq<seq<int>>, grown: seq<seq<int>>)
    requires IsSquare(A, |A|) && IsSquare(D, |A|) && NoSelfLoops(A)
    requires CliquePhase(A, D, k, fitness, sorted, seeds, unselected, skips, grown)
    requires AllCliques(Positive(A), 3) == []
    ensures seeds == [] && unselected == NodeSet(|A|)
  {
    assert |sorted| == |multiset(sorted)| == 0;
  }

  /** The grown clique holds every node of the clique it started from. */
  lemma GrownHolds(chosen: seq<int>, ordered: seq<int>, expanded: seq<int>)
    requires multiset(ordered) == multiset(chosen)
    requires |expanded| >= |ordered| && expanded[..|ordered|] == ordered
    ensures forall x :: x in chosen ==> x in expanded
  {
    forall x | x in chosen ensures x in expanded {
      assert x in multiset(ordered);
      var t :| 0 <= t < |ordered| && ordered[t] == x;
      assert expanded[t] == x;
    }
  }

  // ---------------------------------------------------------------------
  // localExpansion: the second phase

  /** The summed distance from the seeds to node `a`. */
  function SeedDistance(D: Matrix, seeds: seq<int>, a: int): real
    requires IsSquare(D, |D|) && InNodes(|D|, seeds) && 0 <= a < |D|
  {
    if seeds == [] then 0.0
    else SeedDistance(D, seeds[..|seeds| - 1], a) + D[seeds[|seeds| - 1]][a]
  }

  /** The loop of the `max_element` comparator for one node. */
  method DistanceFromSeeds(D: Matrix, seeds: seq<int>, a: int) returns (dist: real)
    requires IsSquare(D, |D|) && InNodes(|D|, seeds) && 0 <= a < |D|
    ensures dist == SeedDistance(D, seeds, a)
  {
    dist := 0.0;
    for t := 0 to |seeds|
      invariant dist == SeedDistance(D, seeds[..t], a)
    {
      assert seeds[..t + 1][..t] == seeds[..t];
      dist := dist + D[seeds[t]][a];
    }
    assert seeds[..|seeds|] == seeds;
  }

  /** `std::max_element` over the unselected nodes, visited in unspecified
      order: a node at the largest summed distance from the seeds. */
  method FarthestUnselected(D: Matrix, seeds: seq<int>, unselected: set<int>) returns (x: int)
    requires IsSquare(D, |D|) && InNodes(|D|, seeds) && unselected != {}
    requires forall u :: u in unselected ==> 0 <= u < |D|
    ensures x in unselected
    ensures forall u :: u in unselected ==> SeedDistance(D, seeds, u) <= SeedDistance(D, seeds, x)
  {
    var rest := unselected;
    ghost var some := Witness(rest);
    x :| x in rest;
    var best := DistanceFromSeeds(D, seeds, x);
    rest := rest - {x};
    while rest != {}
      invariant rest <= unselected && x in unselected && best == SeedDistance(D, seeds, x)
      invariant forall u :: u in unselected - rest ==> SeedDistance(D, seeds, u) <= best
      decreases rest
    {
      ghost var other := Witness(rest);
      var u :| u in rest;
      rest := rest - {u};
      var dist := DistanceFromSeeds(D, seeds, u);
      if best < dist {
        x, best := u, dist;
      }
    }
  }

  /** Every seed after the first `|seeds0|` was unselected and, when it was
      added, at the largest summed distance from the seeds before it. */
  ghost predicate FarthestChain(D: Matrix, seeds0: seq<int>, U0: set<int>, s: seq<int>)
    requires IsSquare(D, |D|) && InNodes(|D|, s) && |seeds0| <= |s|
    requires forall u :: u in U0 ==> 0 <= u < |D|
  {
    forall j :: |seeds0| <= j < |s| ==>
      s[j] in U0 && forall u :: u in U0 && u !in s[..j] ==>
        SeedDistance(D, s[..j], u) <= SeedDistance(D, s[..j], s[j])
  }

  lemma FarthestChainSnoc(D: Matrix, seeds0: seq<int>, U0: set<int>, s: seq<int>, x: int)
    requires IsSquare(D, |D|) && InNodes(|D|, s) && |seeds0| <= |s| && 0 <= x < |D|
    requires forall u :: u in U0 ==> 0 <= u < |D|
    requires FarthestChain(D, seeds0, U0, s) && x in U0
    requires forall u :: u in U0 && u !in s ==> SeedDistance(D, s, u) <= SeedDistance(D, s, x)
    ensures InNodes(|D|, s + [x]) && FarthestChain(D, seeds0, U0, s + [x])
  {
    var s' := s + [x];
    forall j | |seeds0| <= j < |s'|
      ensures s'[j] in U0 && forall u :: u in U0 && u !in s'[..j] ==>
        SeedDistance(D, s'[..j], u) <= SeedDistance(D, s'[..j], s'[j])
    {
      SnocPrefix(s, x, j);
      if j == |s| {
        WholePrefix(s);
      }
    }
  }

  /** What the second loop keeps: the seeds extend `seeds0` by distinct
      farthest nodes, and the unselected nodes are those of `U0` not yet
      taken. */
  ghost predicate FallbackInv(D: Matrix, seeds0: seq<int>, U0: set<int>, seeds: seq<int>, unselected: set<int>)
  {
    IsSquare(D, |D|) && (forall u :: u in U0 ==> 0 <= u < |D|)
    && |seeds0| <= |seeds| && seeds[..|seeds0|] == seeds0
    && unselected == U0 - Members(seeds)
    && |unselected| + |seeds| == |U0| + |seeds0|
    && Distinct(seeds) && InNodes(|D|, seeds)
    && FarthestChain(D, seeds0, U0, seeds)
  }

  lemma FallbackStart(D: Matrix, seeds0: seq<int>, U0: set<int>)
    requires IsSquare(D, |D|) && Distinct(seeds0) && InNodes(|D|, seeds0)
    requires forall t :: 0 <= t < |seeds0| ==> seeds0[t] !in U0
    requires forall u :: u in U0 ==> 0 <= u < |D|
    ensures FallbackInv(D, seeds0, U0, seeds0, U0)
  {
    WholePrefix(seeds0);
    assert U0 - Members(seeds0) == U0;
  }

  lemma FallbackStep(D: Matrix, seeds0: seq<int>, U0: set<int>, seeds: seq<int>, unselected: set<int>, x: int)
    requires FallbackInv(D, seeds0, U0, seeds, unselected) && x in unselected
    requires forall u :: u in unselected ==> SeedDistance(D, seeds, u) <= SeedDistance(D, seeds, x)
    ensures FallbackInv(D, seeds0, U0, seeds + [x], unselected - {x})
  {
    FarthestChainSnoc(D, seeds0, U0, seeds, x);
    SnocPrefix(seeds, x, |seeds0|);
    SeedSnoc(U0, seeds, unselected, x);
  }

  /** Taking `x` from the unselected nodes: the seeds stay distinct and the
      counts stay balanced. */
  lemma SeedSnoc(U0: set<int>, seeds: seq<int>, unselected: set<int>, x: int)
    requires Distinct(seeds) && unselected == U0 - Members(seeds) && x in unselected
    ensures Distinct(seeds + [x]) && unselected - {x} == U0 - Members(seeds + [x])
    ensures |unselected - {x}| == |unselected| - 1
  {
    assert Members(seeds + [x]) == Members(seeds) + {x};
  }

  /** The second loop of `localExpansion`: the missing seeds are the
      unselected nodes farthest from the seeds so far, one at a time; it
      fails when the unselected nodes run out first. */
  method FallbackSeeds(D: Matrix, k: int, seeds0: seq<int>, U0: set<int>) returns (r: Result<seq<int>, string>)
    requires IsSquare(D, |D|) && Distinct(seeds0) && InNodes(|D|, seeds0)
    requires forall t :: 0 <= t < |seeds0| ==> seeds0[t] !in U0
    requires forall u :: u in U0 ==> 0 <= u < |D|
    ensures r.Failure? <==> k - |seeds0| > |U0|
    ensures r.Failure? ==> r.error == "No more nodes to select, k is too large"
    ensures r.Success? ==>
      |r.value| == (if k > |seeds0| then k else |seeds0|) && r.value[..|seeds0|] == seeds0
      && Distinct(r.value) && InNodes(|D|, r.value) && FarthestChain(D, seeds0, U0, r.value)
  {
    var seeds := seeds0;
    var unselected := U0;
    FallbackStart(D, seeds0, U0);
    while |seeds| < k
      invariant FallbackInv(D, seeds0, U0, seeds, unselected)
      invariant |seeds| <= (if k > |seeds0| then k else |seeds0|)
      decreases k - |seeds|
    {
      if unselected == {} {
        return Failure("No more nodes to select, k is too large");
      }
      var maxDistanceSeed := FarthestUnselected(D, seeds, unselected);
      FallbackStep(D, seeds0, U0, seeds, unselected, maxDistanceSeed);
      seeds := seeds + [maxDistanceSeed];
      unselected := unselected - {maxDistanceSeed};
    }
    return Success(seeds);
  }

  /** `localExpansion`: `k` distinct seeds, or the failure raised when the
      nodes run out. The fitness function, with its `alpha` and `beta`, is
      a parameter. */
  method LocalExpansion(A: Matrix, D: Matrix, k: int, fitness: seq<int> -> real)
    returns (r: Result<seq<int>, string>, ghost cliqueSeeds: seq<int>, ghost unselected: set<int>,
             ghost sorted: seq<seq<int>>, ghost skips: seq<seq<int>>, ghost grown: seq<seq<int>>)
    requires IsSquare(A, |A|) && IsSquare(D, |A|) && NoSelfLoops(A)
    ensures CliquePhase(A, D, k, fitness, sorted, cliqueSeeds, unselected, skips, grown)
    ensures |cliqueSeeds| <= (if k > 0 then k else 0)
    ensures Distinct(cliqueSeeds) && InNodes(|A|, cliqueSeeds)
    ensures forall t :: 0 <= t < |cliqueSeeds| ==> cliqueSeeds[t] !in unselected
    ensures forall x :: x in unselected ==> 0 <= x < |A|
    ensures r.Failure? <==> k - |cliqueSeeds| > |unselected|
    ensures r.Failure? ==> r.error == "No more nodes to select, k is too large"
    ensures r.Success? ==>
      |r.value| == (if k > 0 then k else 0) && Distinct(r.value) && InNodes(|A|, r.value)
      && r.value[..|cliqueSeeds|] == cliqueSeeds && FarthestChain(D, cliqueSeeds, unselected, r.value)
  {
    var seeds, rest;
    seeds, rest, sorted, skips, grown := CliqueSeeds(A, D, k, fitness);
    cliqueSeeds, unselected := seeds, rest;
    r := FallbackSeeds(D, k, seeds, rest);
  }
}
