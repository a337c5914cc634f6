/** Jaccard similarity of neighbourhoods: `adjacency_to_sets` and
    `calculate_jaccard_similarity`. The similarity matrix feeds
    `calculate_Q_Sim`, which is the Python modularity computation applied to
    it. */
module Similarity {
  import opened Common
  import opened Matrices
  import Modularity

  /** `adjacency_to_sets`: for each row, the columns holding a non-zero entry. */
  function NeighbourSets(A: Matrix): (sets: seq<set<int>>)
    ensures |sets| == |A|
  {
    seq(|A|, i requires 0 <= i < |A| => set j | 0 <= j < |A[i]| && A[i][j] != 0.0)
  }

  lemma NeighbourSetsMember(A: Matrix, i: nat, j: int)
    requires i < |A|
    ensures j in NeighbourSets(A)[i] <==> 0 <= j < |A[i]| && A[i][j] != 0.0
  {
  }

  /** |s ∩ t| / |s ∪ t|, and 0 when the union is empty. */
  function Jaccard(s: set<int>, t: set<int>): real
  {
    if |s + t| != 0 then (|s * t| as real) / (|s + t| as real) else 0.0
  }

  lemma JaccardSymmetric(s: set<int>, t: set<int>)
    ensures Jaccard(s, t) == Jaccard(t, s)
  {
    assert s + t == t + s && s * t == t * s;
  }

  lemma JaccardUnit(s: set<int>, t: set<int>)
    ensures 0.0 <= Jaccard(s, t) <= 1.0
  {
    if |s + t| != 0 {
      SubsetCard(s * t, s + t);
      RatioUnit(|s * t| as real, |s + t| as real);
    }
  }

  lemma RatioUnit(x: real, y: real)
    requires 0.0 <= x <= y && y > 0.0
    ensures 0.0 <= x / y <= 1.0
  {
  }

  /** A node is fully similar to itself unless it has no neighbour. */
  lemma JaccardSelf(s: set<int>)
    ensures Jaccard(s, s) == if s == {} then 0.0 else 1.0
  {
    assert s + s == s && s * s == s;
    if s != {} {
      SelfRatio(|s| as real);
    }
  }

  lemma SelfRatio(x: real)
    requires x > 0.0
    ensures x / x == 1.0
  {
  }

  /** Which entries the nested loops have written: row/column `x` for every
      `x < i`, and the pairs `(i, y)` for `i <= y < j`. */
  predicate Written(x: int, y: int, i: int, j: int)
  {
    (x <= y && (x < i || (x == i && y < j))) || (y <= x && (y < i || (y == i && x < j)))
  }

  /** `calculate_jaccard_similarity`: the upper triangle is filled row by
      row and mirrored into the lower one. */
  method JaccardSimilarity(A: Matrix) returns (S: Matrix)
    requires IsSquare(A, |A|)
    ensures IsSquare(S, |A|)
    ensures forall x, y :: 0 <= x < |A| && 0 <= y < |A| ==>
      S[x][y] == Jaccard(NeighbourSets(A)[x], NeighbourSets(A)[y])
  {
    var sets := NeighbourSets(A);
    var n := |sets|;
    S := seq(n, _ => seq(n, _ => 0.0));
    var i := 0;
    while i < n
      invariant 0 <= i <= n
      invariant IsSquare(S, n)
      invariant forall x, y {:trigger S[x][y]} :: 0 <= x < n && 0 <= y < n ==>
        S[x][y] == if Written(x, y, i, i) then Jaccard(sets[x], sets[y]) else 0.0
    {
      var j := i;
      while j < n
        invariant i <= j <= n
        invariant IsSquare(S, n)
        invariant forall x, y {:trigger S[x][y]} :: 0 <= x < n && 0 <= y < n ==>
          S[x][y] == if Written(x, y, i, j) then Jaccard(sets[x], sets[y]) else 0.0
      {
        var intersection := |sets[i] * sets[j]|;
        var union := |sets[i] + sets[j]|;
        var similarity := if union != 0 then (intersection as real) / (union as real) else 0.0;
        JaccardSymmetric(sets[i], sets[j]);
        S := S[i := S[i][j := similarity]];
        S := S[j := S[j][i := similarity]];
        j := j + 1;
      }
      i := i + 1;
    }
  }

  /** The similarity matrix is symmetric, has entries in [0, 1], and its
      diagonal is 1 exactly for nodes with a neighbour. */
  lemma SimilarityProperties(A: Matrix, S: Matrix)
    requires IsSquare(A, |A|) && IsSquare(S, |A|)
    requires forall x, y :: 0 <= x < |A| && 0 <= y < |A| ==>
      S[x][y] == Jaccard(NeighbourSets(A)[x], NeighbourSets(A)[y])
    ensures forall x, y :: 0 <= x < |A| && 0 <= y < |A| ==> S[x][y] == S[y][x]
    ensures forall x, y :: 0 <= x < |A| && 0 <= y < |A| ==> 0.0 <= S[x][y] <= 1.0
    ensures forall x :: 0 <= x < |A| ==>
      S[x][x] == if exists y :: 0 <= y < |A| && A[x][y] != 0.0 then 1.0 else 0.0
  {
    var sets := NeighbourSets(A);
    forall x, y | 0 <= x < |A| && 0 <= y < |A| ensures S[x][y] == S[y][x] {
      JaccardSymmetric(sets[x], sets[y]);
    }
    forall x, y | 0 <= x < |A| && 0 <= y < |A| ensures 0.0 <= S[x][y] <= 1.0 {
      JaccardUnit(sets[x], sets[y]);
    }
    forall x | 0 <= x < |A|
      ensures S[x][x] == if exists y :: 0 <= y < |A| && A[x][y] != 0.0 then 1.0 else 0.0
    {
      JaccardSelf(sets[x]);
      if exists y :: 0 <= y < |A| && A[x][y] != 0.0 {
        var y :| 0 <= y < |A| && A[x][y] != 0.0;
        assert y in sets[x];
      } else {
        assert sets[x] == {};
      }
    }
  }

  /** `calculate_Q_Sim` on a Jaccard matrix lies in [-1, 1]. */
  lemma QSimInRange(A: Matrix, S: Matrix, cs: seq<seq<int>>)
    requires IsSquare(A, |A|) && IsSquare(S, |A|)
    requires forall x, y :: 0 <= x < |A| && 0 <= y < |A| ==>
      S[x][y] == Jaccard(NeighbourSets(A)[x], NeighbourSets(A)[y])
    ensures -1.0 <= Modularity.ModularityPyOf(S, cs) <= 1.0
  {
    SimilarityProperties(A, S);
    Modularity.ModularityPyInRange(S, cs);
  }
}
