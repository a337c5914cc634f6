/** Bron–Kerbosch maximal-clique enumeration without pivoting, in the two
    forms of the C++ code: `network.cpp` reports every maximal clique and
    counts non-zero entries as edges, `local_expansion.cpp` reports those of
    more than two nodes and counts positive entries as edges. Both are the
    same recursion over an adjacency relation, with a minimum size. */
module Cliques {
  import opened Common
  import opened Matrices

  /** An adjacency relation on the nodes `0 .. |G| - 1`: `G[v][w]` says
      there is an edge from `v` to `w`. */
  type Graph = seq<seq<bool>>

  predicate IsGraph(G: Graph)
  {
    forall v :: 0 <= v < |G| ==> |G[v]| == |G|
  }

  /** No node has an edge to itself. */
  predicate Loopless(G: Graph)
    requires IsGraph(G)
  {
    forall v :: 0 <= v < |G| ==> !G[v][v]
  }

  predicate Symmetric(G: Graph)
    requires IsGraph(G)
  {
    forall v, w :: 0 <= v < |G| && 0 <= w < |G| ==> G[v][w] == G[w][v]
  }

  /** Every entry of `s` is a node of `G`. */
  predicate Nodes(G: Graph, s: seq<int>)
  {
    forall t :: 0 <= t < |s| ==> 0 <= s[t] < |G|
  }

  /** `network.cpp`'s graph: an edge wherever the entry is non-zero. */
  function NonZero(graph: seq<seq<int>>): (G: Graph)
    requires forall v :: 0 <= v < |graph| ==> |graph[v]| == |graph|
    ensures IsGraph(G) && |G| == |graph|
    ensures forall v, w :: 0 <= v < |G| && 0 <= w < |G| ==> (G[v][w] <==> graph[v][w] != 0)
  {
    seq(|graph|, v requires 0 <= v < |graph| =>
      seq(|graph|, w requires 0 <= w < |graph| => graph[v][w] != 0))
  }

  /** `local_expansion.cpp`'s graph: an edge wherever the weight is positive. */
  function Positive(A: Matrix): (G: Graph)
    requires IsSquare(A, |A|)
    ensures IsGraph(G) && |G| == |A|
    ensures forall v, w :: 0 <= v < |G| && 0 <= w < |G| ==> (G[v][w] <==> A[v][w] > 0.0)
  {
    seq(|A|, v requires 0 <= v < |A| =>
      seq(|A|, w requires 0 <= w < |A| => A[v][w] > 0.0))
  }

  // ---------------------------------------------------------------------
  // isNeighborOfAll

  /** `isNeighborOfAll`: `v` has an edge to every node of `clique`, which
      holds vacuously for an empty clique. */
  method IsNeighborOfAll(v: int, clique: seq<int>, graph: seq<seq<int>>) returns (r: bool)
    requires forall u :: 0 <= u < |graph| ==> |graph[u]| == |graph|
    requires 0 <= v < |graph| && forall t :: 0 <= t < |clique| ==> 0 <= clique[t] < |graph|
    ensures r <==> forall t :: 0 <= t < |clique| ==> NonZero(graph)[v][clique[t]]
    ensures clique == [] ==> r
  {
    for t := 0 to |clique|
      invariant forall s :: 0 <= s < t ==> graph[v][clique[s]] != 0
    {
      if graph[v][clique[t]] == 0 {
        return false;
      }
    }
    return true;
  }

  // ---------------------------------------------------------------------
  // The recursion

  /** The entries of `s` that `v` has an edge to, in their order. */
  function Neighbours(G: Graph, v: int, s: seq<int>): (r: seq<int>)
    requires IsGraph(G) && 0 <= v < |G| && Nodes(G, s)
    ensures |r| <= |s| && Nodes(G, r)
  {
    if s == [] then []
    else
      var w := s[|s| - 1];
      Neighbours(G, v, s[..|s| - 1]) + (if G[v][w] then [w] else [])
  }

  lemma {:induction false} NeighboursMember(G: Graph, v: int, s: seq<int>, u: int)
    requires IsGraph(G) && 0 <= v < |G| && Nodes(G, s)
    ensures u in Neighbours(G, v, s) <==> u in s && 0 <= u < |G| && G[v][u]
  {
    if s != [] {
      var init := s[..|s| - 1];
      NeighboursMember(G, v, init, u);
      assert s == init + [s[|s| - 1]];
    }
  }

  lemma {:induction false} NeighboursDistinct(G: Graph, v: int, s: seq<int>)
    requires IsGraph(G) && 0 <= v < |G| && Nodes(G, s) && Distinct(s)
    ensures Distinct(Neighbours(G, v, s))
  {
    if s != [] {
      var init := s[..|s| - 1];
      var w := s[|s| - 1];
      NeighboursDistinct(G, v, init);
      NeighboursMember(G, v, init, w);
      assert w !in init;
    }
  }

  /** A non-neighbour among the entries makes the filtered list shorter. */
  lemma {:induction false} NeighboursDrop(G: Graph, v: int, s: seq<int>, t: nat)
    requires IsGraph(G) && 0 <= v < |G| && Nodes(G, s)
    requires t < |s| && !G[v][s[t]]
    ensures |Neighbours(G, v, s)| < |s|
  {
    if t < |s| - 1 {
      NeighboursDrop(G, v, s[..|s| - 1], t);
    }
  }

  /** The cliques the recursion reports from the current clique `R`, the
      candidates `P` and the excluded nodes `X`: `R` itself when `P` and
      `X` are empty (and it has at least `minSize` nodes), otherwise the
      candidates' branches. */
  function Found(G: Graph, minSize: nat, R: seq<int>, P: seq<int>, X: seq<int>): seq<seq<int>>
    requires IsGraph(G) && Loopless(G) && Nodes(G, P) && Nodes(G, X)
    decreases |P|, 1
  {
    if P == [] && X == [] then (if |R| >= minSize then [R] else [])
    else Branches(G, minSize, R, P, X)
  }

  /** The loop over the candidates: the first candidate `v` extends the
      clique, keeping its neighbours among the candidates and the excluded
      nodes; then it moves from `P` to `X`. */
  function Branches(G: Graph, minSize: nat, R: seq<int>, P: seq<int>, X: seq<int>): seq<seq<int>>
    requires IsGraph(G) && Loopless(G) && Nodes(G, P) && Nodes(G, X)
    decreases |P|, 0
  {
    if P == [] then []
    else
      var v := P[0];
      NeighboursDrop(G, v, P, 0);
      Found(G, minSize, R + [v], Neighbours(G, v, P), Neighbours(G, v, X))
      + Branches(G, minSize, R, P[1..], X + [v])
  }

  /** Every maximal clique of at least `minSize` nodes, starting from all
      nodes as candidates. */
  function AllCliques(G: Graph, minSize: nat): seq<seq<int>>
    requires IsGraph(G) && Loopless(G)
  {
    Found(G, minSize, [], Range(|G|), [])
  }

  /** The loops building `newPotentialNodes` and `newNonCandidates`. */
  method KeepNeighbours(G: Graph, v: int, s: seq<int>) returns (r: seq<int>)
    requires IsGraph(G) && 0 <= v < |G| && Nodes(G, s)
    ensures r == Neighbours(G, v, s)
  {
    r := [];
    for t := 0 to |s|
      invariant r == Neighbours(G, v, s[..t])
    {
      assert s[..t + 1][..t] == s[..t];
      if G[v][s[t]] {
        r := r + [s[t]];
      }
    }
    assert s[..|s|] == s;
  }

  /** `findCliquesRecursive` / `BronKerbosch`: appends to `found` the
      cliques reported from `R`, `P` and `X`. The candidate loop always
      takes the first remaining candidate, since each one is erased after
      its branch. */
  method BronKerbosch(G: Graph, minSize: nat, R: seq<int>, P0: seq<int>, X0: seq<int>, found: seq<seq<int>>)
    returns (found': seq<seq<int>>)
    requires IsGraph(G) && Loopless(G) && Nodes(G, P0) && Nodes(G, X0)
    ensures found' == found + Found(G, minSize, R, P0, X0)
    decreases |P0|
  {
    if P0 == [] && X0 == [] {
      found' := if |R| >= minSize then found + [R] else found;
      return;
    }
    var P, X := P0, X0;
    found' := found;
    while P != []
      invariant Nodes(G, P) && Nodes(G, X) && |P| <= |P0|
      invariant found' + Branches(G, minSize, R, P, X) == found + Branches(G, minSize, R, P0, X0)
      decreases |P|
    {
      var v := P[0];
      var newP := KeepNeighbours(G, v, P);
      var newX := KeepNeighbours(G, v, X);
      BranchesUnfold(G, minSize, R, P, X);
      ghost var before, branch, rest := found', Found(G, minSize, R + [v], newP, newX), Branches(G, minSize, R, P[1..], X + [v]);
      found' := BronKerbosch(G, minSize, R + [v], newP, newX, found');
      Associative(before, branch, rest);
      P, X := P[1..], X + [v];
    }
  }

  lemma Associative<T>(a: seq<T>, b: seq<T>, c: seq<T>)
    ensures (a + b) + c == a + (b + c)
  {
  }

  /** One turn of the candidate loop. */
  lemma BranchesUnfold(G: Graph, minSize: nat, R: seq<int>, P: seq<int>, X: seq<int>)
    requires IsGraph(G) && Loopless(G) && Nodes(G, P) && Nodes(G, X) && P != []
    ensures Nodes(G, P[1..]) && Nodes(G, X + [P[0]])
    ensures |Neighbours(G, P[0], P)| < |P|
    ensures Branches(G, minSize, R, P, X)
      == Found(G, minSize, R + [P[0]], Neighbours(G, P[0], P), Neighbours(G, P[0], X))
         + Branches(G, minSize, R, P[1..], X + [P[0]])
  {
    NeighboursDrop(G, P[0], P, 0);
  }

  /** `findAllCliques`: every node starts as a candidate. */
  method FindAllCliques(G: Graph, minSize: nat) returns (cliques: seq<seq<int>>)
    requires IsGraph(G) && Loopless(G)
    ensures cliques == AllCliques(G, minSize)
  {
    var potentialNodes := [];
    for i := 0 to |G|
      invariant potentialNodes == Range(i)
    {
      potentialNodes := potentialNodes + [i];
    }
    cliques := BronKerbosch(G, minSize, [], potentialNodes, [], []);
  }

  /** `network.cpp`'s `findAllCliques`: no size filter, non-zero entries
      are edges; a graph without nodes yields one empty clique. */
  method NetworkCliques(graph: seq<seq<int>>) returns (cliques: seq<seq<int>>)
    requires forall v :: 0 <= v < |graph| ==> |graph[v]| == |graph|
    requires forall v :: 0 <= v < |graph| ==> graph[v][v] == 0
    ensures cliques == AllCliques(NonZero(graph), 0)
    ensures |graph| == 0 ==> cliques == [[]]
  {
    cliques := FindAllCliques(NonZero(graph), 0);
  }

  // ---------------------------------------------------------------------
  // What the recursion keeps

  /** `u` has an edge from every node of `R`. */
  predicate AdjacentToAll(G: Graph, R: seq<int>, u: int)
    requires IsGraph(G) && Nodes(G, R) && 0 <= u < |G|
  {
    forall t :: 0 <= t < |R| ==> G[R[t]][u]
  }

  /** `R` is a clique in list order: an edge from every node to every
      later one. */
  predicate Chain(G: Graph, R: seq<int>)
    requires IsGraph(G) && Nodes(G, R)
  {
    forall i, j :: 0 <= i < j < |R| ==> G[R[i]][R[j]]
  }

  /** The candidates are outside `R` and `X` and adjacent from all of `R`. */
  predicate Candidates(G: Graph, R: seq<int>, P: seq<int>, X: seq<int>)
    requires IsGraph(G) && Nodes(G, R) && Nodes(G, P)
  {
    forall t :: 0 <= t < |P| ==> P[t] !in R && P[t] !in X && AdjacentToAll(G, R, P[t])
  }

  /** The excluded nodes are outside `R` and adjacent from all of `R`. */
  predicate Excluded(G: Graph, R: seq<int>, X: seq<int>)
    requires IsGraph(G) && Nodes(G, R) && Nodes(G, X)
  {
    forall t :: 0 <= t < |X| ==> X[t] !in R && AdjacentToAll(G, R, X[t])
  }

  /** Every node outside `R` adjacent from all of `R` is a candidate or
      excluded. */
  ghost predicate Covered(G: Graph, R: seq<int>, P: seq<int>, X: seq<int>)
    requires IsGraph(G) && Nodes(G, R)
  {
    forall u :: 0 <= u < |G| && u !in R && AdjacentToAll(G, R, u) ==> u in P || u in X
  }

  /** The recursion's invariant: `R` is a clique of distinct nodes, the
      candidates are distinct, and the three facts above. */
  ghost predicate Inv(G: Graph, R: seq<int>, P: seq<int>, X: seq<int>)
    requires IsGraph(G)
  {
    Nodes(G, R) && Nodes(G, P) && Nodes(G, X)
    && Distinct(R) && Distinct(P) && Chain(G, R)
    && Candidates(G, R, P, X) && Excluded(G, R, X) && Covered(G, R, P, X)
  }

  lemma AdjacentSnoc(G: Graph, R: seq<int>, v: int, u: int)
    requires IsGraph(G) && Nodes(G, R) && 0 <= v < |G| && 0 <= u < |G|
    ensures AdjacentToAll(G, R + [v], u) <==> AdjacentToAll(G, R, u) && G[v][u]
  {
    if AdjacentToAll(G, R, u) && G[v][u] {
      forall t | 0 <= t < |R| + 1 ensures G[(R + [v])[t]][u] {
        if t < |R| {
          assert (R + [v])[t] == R[t];
        }
      }
    }
    if AdjacentToAll(G, R + [v], u) {
      forall t | 0 <= t < |R| ensures G[R[t]][u] {
        assert (R + [v])[t] == R[t];
      }
      assert (R + [v])[|R|] == v;
    }
  }

  lemma InitialInv(G: Graph)
    requires IsGraph(G)
    ensures Inv(G, [], Range(|G|), [])
  {
    var P := Range(|G|);
    forall u | 0 <= u < |G| ensures u in P {
      assert P[u] == u;
    }
  }

  /** Adding a candidate to the clique keeps it a clique of distinct nodes. */
  lemma GrowClique(G: Graph, R: seq<int>, v: int)
    requires IsGraph(G) && Nodes(G, R) && 0 <= v < |G|
    requires Distinct(R) && Chain(G, R) && v !in R && AdjacentToAll(G, R, v)
    ensures Distinct(R + [v]) && Chain(G, R + [v])
  {
    var R' := R + [v];
    forall i, j | 0 <= i < j < |R'| ensures R'[i] != R'[j] && G[R'[i]][R'[j]] {
      assert R'[i] == R[i];
      if j < |R| {
        assert R'[j] == R[j];
      }
    }
  }

  lemma BranchCandidates(G: Graph, R: seq<int>, P: seq<int>, X: seq<int>)
    requires IsGraph(G) && Loopless(G) && Nodes(G, R) && Nodes(G, P) && Nodes(G, X) && P != []
    requires Candidates(G, R, P, X)
    ensures Candidates(G, R + [P[0]], Neighbours(G, P[0], P), Neighbours(G, P[0], X))
  {
    var v := P[0];
    var P', X' := Neighbours(G, v, P), Neighbours(G, v, X);
    forall t | 0 <= t < |P'| ensures P'[t] !in R + [v] && P'[t] !in X' && AdjacentToAll(G, R + [v], P'[t]) {
      var w := P'[t];
      NeighboursMember(G, v, P, w);
      NeighboursMember(G, v, X, w);
      var s :| 0 <= s < |P| && P[s] == w;
      AdjacentSnoc(G, R, v, w);
    }
  }

  lemma BranchExcluded(G: Graph, R: seq<int>, X: seq<int>, v: int)
    requires IsGraph(G) && Nodes(G, R) && Nodes(G, X) && 0 <= v < |G|
    requires Excluded(G, R, X) && v !in X
    ensures Excluded(G, R + [v], Neighbours(G, v, X))
  {
    var X' := Neighbours(G, v, X);
    forall t | 0 <= t < |X'| ensures X'[t] !in R + [v] && AdjacentToAll(G, R + [v], X'[t]) {
      var w := X'[t];
      NeighboursMember(G, v, X, w);
      var s :| 0 <= s < |X| && X[s] == w;
      AdjacentSnoc(G, R, v, w);
    }
  }

  lemma BranchCovered(G: Graph, R: seq<int>, P: seq<int>, X: seq<int>, v: int)
    requires IsGraph(G) && Nodes(G, R) && Nodes(G, P) && Nodes(G, X) && 0 <= v < |G|
    requires Covered(G, R, P, X)
    ensures Covered(G, R + [v], Neighbours(G, v, P), Neighbours(G, v, X))
  {
    forall u | 0 <= u < |G| && u !in R + [v] && AdjacentToAll(G, R + [v], u)
      ensures u in Neighbours(G, v, P) || u in Neighbours(G, v, X)
    {
      AdjacentSnoc(G, R, v, u);
      NeighboursMember(G, v, P, u);
      NeighboursMember(G, v, X, u);
    }
  }

  /** The branch of the first candidate keeps the invariant. */
  lemma BranchInv(G: Graph, R: seq<int>, P: seq<int>, X: seq<int>)
    requires IsGraph(G) && Loopless(G) && Inv(G, R, P, X) && P != []
    ensures Inv(G, R + [P[0]], Neighbours(G, P[0], P), Neighbours(G, P[0], X))
  {
    var v := P[0];
    assert v !in R && v !in X && AdjacentToAll(G, R, v);
    GrowClique(G, R, v);
    NeighboursDistinct(G, v, P);
    BranchCandidates(G, R, P, X);
    BranchExcluded(G, R, X, v);
    BranchCovered(G, R, P, X, v);
  }

  /** Moving the first candidate to the excluded nodes keeps the invariant. */
  lemma RestInv(G: Graph, R: seq<int>, P: seq<int>, X: seq<int>)
    requires IsGraph(G) && Inv(G, R, P, X) && P != []
    ensures Inv(G, R, P[1..], X + [P[0]])
  {
    var v := P[0];
    var P', X' := P[1..], X + [v];
    assert Candidates(G, R, P', X') by {
      forall t | 0 <= t < |P'| ensures P'[t] !in R && P'[t] !in X' && AdjacentToAll(G, R, P'[t]) {
        assert P'[t] == P[t + 1];
      }
    }
    assert Excluded(G, R, X') by {
      forall t | 0 <= t < |X'| ensures X'[t] !in R && AdjacentToAll(G, R, X'[t]) {
        if t < |X| {
          assert X'[t] == X[t];
        }
      }
    }
    assert Covered(G, R, P', X') by {
      forall u | 0 <= u < |G| && u !in R && AdjacentToAll(G, R, u) ensures u in P' || u in X' {
        assert P == [v] + P';
      }
    }
  }

  // ---------------------------------------------------------------------
  // What is reported

  /** The nodes a list holds. */
  ghost function Members(c: seq<int>): set<int>
  {
    set x | x in c
  }

  /** A maximal clique as a list: distinct nodes, an edge from every node to
      every later one, and no other node adjacent from all of them. */
  ghost predicate MaximalList(G: Graph, minSize: nat, c: seq<int>)
    requires IsGraph(G)
  {
    |c| >= minSize && Nodes(G, c) && Distinct(c) && Chain(G, c)
    && forall u :: 0 <= u < |G| && u !in c ==> !AdjacentToAll(G, c, u)
  }

  ghost predicate AllMaximal(G: Graph, minSize: nat, cs: seq<seq<int>>)
    requires IsGraph(G)
  {
    forall i :: 0 <= i < |cs| ==> MaximalList(G, minSize, cs[i])
  }

  lemma AllMaximalAppend(G: Graph, minSize: nat, a: seq<seq<int>>, b: seq<seq<int>>)
    requires IsGraph(G) && AllMaximal(G, minSize, a) && AllMaximal(G, minSize, b)
    ensures AllMaximal(G, minSize, a + b)
  {
    forall i | 0 <= i < |a + b| ensures MaximalList(G, minSize, (a + b)[i]) {
      if i >= |a| {
        assert (a + b)[i] == b[i - |a|];
      }
    }
  }

  /** Everything reported is a maximal clique of at least `minSize` nodes. */
  lemma {:induction false} FoundMaximal(G: Graph, minSize: nat, R: seq<int>, P: seq<int>, X: seq<int>)
    requires IsGraph(G) && Loopless(G) && Inv(G, R, P, X)
    ensures AllMaximal(G, minSize, Found(G, minSize, R, P, X))
    decreases |P|, 1
  {
    if !(P == [] && X == []) {
      BranchesMaximal(G, minSize, R, P, X);
    }
  }

  lemma {:induction false} BranchesMaximal(G: Graph, minSize: nat, R: seq<int>, P: seq<int>, X: seq<int>)
    requires IsGraph(G) && Loopless(G) && Inv(G, R, P, X)
    ensures AllMaximal(G, minSize, Branches(G, minSize, R, P, X))
    decreases |P|, 0
  {
    if P != [] {
      var v := P[0];
      NeighboursDrop(G, v, P, 0);
      BranchInv(G, R, P, X);
      FoundMaximal(G, minSize, R + [v], Neighbours(G, v, P), Neighbours(G, v, X));
      RestInv(G, R, P, X);
      BranchesMaximal(G, minSize, R, P[1..], X + [v]);
      AllMaximalAppend(G, minSize, Found(G, minSize, R + [v], Neighbours(G, v, P), Neighbours(G, v, X)),
        Branches(G, minSize, R, P[1..], X + [v]));
    }
  }

  /** Everything reported extends `R` by candidates. */
  ghost predicate Within(cs: seq<seq<int>>, lo: set<int>, hi: set<int>)
  {
    forall i :: 0 <= i < |cs| ==> lo <= Members(cs[i]) <= hi
  }

  lemma MembersSnoc(R: seq<int>, v: int)
    ensures Members(R + [v]) == Members(R) + {v}
  {
    assert forall x :: x in R + [v] <==> x in R || x == v;
  }

  lemma {:induction false} FoundWithin(G: Graph, minSize: nat, R: seq<int>, P: seq<int>, X: seq<int>)
    requires IsGraph(G) && Loopless(G) && Nodes(G, P) && Nodes(G, X)
    ensures Within(Found(G, minSize, R, P, X), Members(R), Members(R) + Members(P))
    decreases |P|, 1
  {
    if !(P == [] && X == []) {
      BranchesWithin(G, minSize, R, P, X);
    }
  }

  lemma {:induction false} BranchesWithin(G: Graph, minSize: nat, R: seq<int>, P: seq<int>, X: seq<int>)
    requires IsGraph(G) && Loopless(G) && Nodes(G, P) && Nodes(G, X)
    ensures Within(Branches(G, minSize, R, P, X), Members(R), Members(R) + Members(P))
    decreases |P|, 0
  {
    if P != [] {
      var v := P[0];
      BranchesUnfold(G, minSize, R, P, X);
      var a := Found(G, minSize, R + [v], Neighbours(G, v, P), Neighbours(G, v, X));
      var b := Branches(G, minSize, R, P[1..], X + [v]);
      FoundWithin(G, minSize, R + [v], Neighbours(G, v, P), Neighbours(G, v, X));
      BranchesWithin(G, minSize, R, P[1..], X + [v]);
      BranchBounds(G, R, P, X);
      WithinAppend(a, b, Members(R + [v]), Members(R + [v]) + Members(Neighbours(G, v, P)),
        Members(R), Members(R) + Members(P[1..]), Members(R), Members(R) + Members(P));
    }
  }

  /** The bounds of the two parts of a turn lie within those of the whole. */
  lemma BranchBounds(G: Graph, R: seq<int>, P: seq<int>, X: seq<int>)
    requires IsGraph(G) && Nodes(G, P) && P != []
    ensures Members(R) <= Members(R + [P[0]])
    ensures Members(R + [P[0]]) + Members(Neighbours(G, P[0], P)) <= Members(R) + Members(P)
    ensures Members(R) + Members(P[1..]) <= Members(R) + Members(P)
  {
    var v := P[0];
    MembersSnoc(R, v);
    assert Members(Neighbours(G, v, P)) <= Members(P) by {
      forall x | x in Neighbours(G, v, P) ensures x in P {
        NeighboursMember(G, v, P, x);
      }
    }
    assert P == [v] + P[1..];
    assert v in Members(P);
  }

  lemma WithinAppend(a: seq<seq<int>>, b: seq<seq<int>>, loA: set<int>, hiA: set<int>, loB: set<int>, hiB: set<int>, lo: set<int>, hi: set<int>)
    requires Within(a, loA, hiA) && Within(b, loB, hiB)
    requires lo <= loA && hiA <= hi && lo <= loB && hiB <= hi
    ensures Within(a + b, lo, hi)
  {
    forall i | 0 <= i < |a + b| ensures lo <= Members((a + b)[i]) <= hi {
      if i >= |a| {
        assert (a + b)[i] == b[i - |a|];
      } else {
        assert (a + b)[i] == a[i];
      }
    }
  }

  /** No clique is reported twice. */
  ghost predicate Once(cs: seq<seq<int>>)
  {
    forall i, j :: 0 <= i < j < |cs| ==> Members(cs[i]) != Members(cs[j])
  }

  lemma OnceAppend(a: seq<seq<int>>, b: seq<seq<int>>, v: int, loA: set<int>, hiA: set<int>, loB: set<int>, hiB: set<int>)
    requires Once(a) && Once(b)
    requires Within(a, loA, hiA) && v in loA
    requires Within(b, loB, hiB) && v !in hiB
    ensures Once(a + b)
  {
    forall i, j | 0 <= i < j < |a + b| ensures Members((a + b)[i]) != Members((a + b)[j]) {
      if j < |a| {
        assert (a + b)[i] == a[i] && (a + b)[j] == a[j];
      } else if i < |a| {
        assert (a + b)[i] == a[i] && (a + b)[j] == b[j - |a|];
      } else {
        assert (a + b)[i] == b[i - |a|] && (a + b)[j] == b[j - |a|];
      }
    }
  }

  lemma {:induction false} FoundOnce(G: Graph, minSize: nat, R: seq<int>, P: seq<int>, X: seq<int>)
    requires IsGraph(G) && Loopless(G) && Inv(G, R, P, X)
    ensures Once(Found(G, minSize, R, P, X))
    decreases |P|, 1
  {
    if !(P == [] && X == []) {
      BranchesOnce(G, minSize, R, P, X);
    }
  }

  lemma {:induction false} BranchesOnce(G: Graph, minSize: nat, R: seq<int>, P: seq<int>, X: seq<int>)
    requires IsGraph(G) && Loopless(G) && Inv(G, R, P, X)
    ensures Once(Branches(G, minSize, R, P, X))
    decreases |P|, 0
  {
    if P != [] {
      var v := P[0];
      BranchesUnfold(G, minSize, R, P, X);
      BranchInv(G, R, P, X);
      FoundOnce(G, minSize, R + [v], Neighbours(G, v, P), Neighbours(G, v, X));
      RestInv(G, R, P, X);
      BranchesOnce(G, minSize, R, P[1..], X + [v]);
      FoundWithin(G, minSize, R + [v], Neighbours(G, v, P), Neighbours(G, v, X));
      BranchesWithin(G, minSize, R, P[1..], X + [v]);
      CandidateSeparates(R, P);
      OnceAppend(Found(G, minSize, R + [v], Neighbours(G, v, P), Neighbours(G, v, X)),
        Branches(G, minSize, R, P[1..], X + [v]), v,
        Members(R + [v]), Members(R + [v]) + Members(Neighbours(G, v, P)), Members(R), Members(R) + Members(P[1..]));
    }
  }

  /** The first candidate joins the branch's clique and is neither in `R`
      nor among the remaining candidates. */
  lemma CandidateSeparates(R: seq<int>, P: seq<int>)
    requires P != [] && P[0] !in R && Distinct(P)
    ensures P[0] in Members(R + [P[0]]) && P[0] !in Members(R) + Members(P[1..])
  {
    MembersSnoc(R, P[0]);
    assert forall t :: 0 <= t < |P| - 1 ==> P[1..][t] == P[t + 1];
  }

  /** A maximal clique (as a set): distinct nodes pairwise adjacent, and no
      other node adjacent from all of them. */
  ghost predicate IsMaximalClique(G: Graph, C: set<int>)
    requires IsGraph(G)
  {
    (forall a :: a in C ==> 0 <= a < |G|)
    && (forall a, b :: a in C && b in C && a != b ==> G[a][b])
    && forall u :: 0 <= u < |G| && u !in C ==> exists a :: a in C && !G[a][u]
  }

  /** `cs` reports `C`. */
  ghost predicate Reports(cs: seq<seq<int>>, C: set<int>)
  {
    exists i :: 0 <= i < |cs| && Members(cs[i]) == C
  }

  lemma ReportsAppend(a: seq<seq<int>>, b: seq<seq<int>>, C: set<int>)
    requires Reports(a, C) || Reports(b, C)
    ensures Reports(a + b, C)
  {
    if Reports(a, C) {
      var i :| 0 <= i < |a| && Members(a[i]) == C;
      assert (a + b)[i] == a[i];
    } else {
      var i :| 0 <= i < |b| && Members(b[i]) == C;
      assert (a + b)[|a| + i] == b[i];
    }
  }

  /** A node adjacent from every node of a maximal clique belongs to it. */
  lemma MaximalAbsorbs(G: Graph, R: seq<int>, C: set<int>, x: int)
    requires IsGraph(G) && Nodes(G, R) && IsMaximalClique(G, C) && Members(R) == C
    requires 0 <= x < |G| && AdjacentToAll(G, R, x)
    ensures x in C
  {
    forall a | a in C ensures G[a][x] {
      var t :| 0 <= t < |R| && R[t] == a;
    }
  }

  /** Every maximal clique of at least `minSize` nodes that contains `R`,
      lies within `R` and the candidates, and avoids the excluded nodes, is
      reported. */
  lemma {:induction false} FoundComplete(G: Graph, minSize: nat, R: seq<int>, P: seq<int>, X: seq<int>, C: set<int>)
    requires IsGraph(G) && Loopless(G) && Inv(G, R, P, X)
    requires IsMaximalClique(G, C) && |C| >= minSize
    requires Members(R) <= C <= Members(R) + Members(P) && C !! Members(X)
    ensures Reports(Found(G, minSize, R, P, X), C)
    decreases |P|, 1
  {
    if P == [] && X == [] {
      assert C == Members(R);
      DistinctCard(R);
      assert Found(G, minSize, R, P, X) == [R];
      assert Members(Found(G, minSize, R, P, X)[0]) == C;
    } else {
      BranchesComplete(G, minSize, R, P, X, C);
    }
  }

  lemma {:induction false} BranchesComplete(G: Graph, minSize: nat, R: seq<int>, P: seq<int>, X: seq<int>, C: set<int>)
    requires IsGraph(G) && Loopless(G) && Inv(G, R, P, X) && (P != [] || X != [])
    requires IsMaximalClique(G, C) && |C| >= minSize
    requires Members(R) <= C <= Members(R) + Members(P) && C !! Members(X)
    ensures Reports(Branches(G, minSize, R, P, X), C)
    decreases |P|, 0
  {
    if P == [] {
      assert C == Members(R);
      assert X[0] in Members(X);
      MaximalAbsorbs(G, R, C, X[0]);
      assert false;
    } else {
      var v := P[0];
      BranchesUnfold(G, minSize, R, P, X);
      var a := Found(G, minSize, R + [v], Neighbours(G, v, P), Neighbours(G, v, X));
      var b := Branches(G, minSize, R, P[1..], X + [v]);
      if v in C {
        BranchInv(G, R, P, X);
        BranchNarrows(G, R, P, X, C);
        FoundComplete(G, minSize, R + [v], Neighbours(G, v, P), Neighbours(G, v, X), C);
      } else {
        RestInv(G, R, P, X);
        RestNarrows(R, P, X, C);
        BranchesComplete(G, minSize, R, P[1..], X + [v], C);
      }
      ReportsAppend(a, b, C);
    }
  }

  /** When the first candidate is not in the clique, the clique lies within
      `R` and the remaining candidates and avoids the candidate. */
  lemma RestNarrows(R: seq<int>, P: seq<int>, X: seq<int>, C: set<int>)
    requires P != [] && P[0] !in C
    requires Members(R) <= C <= Members(R) + Members(P) && C !! Members(X)
    ensures Members(R) <= C <= Members(R) + Members(P[1..]) && C !! Members(X + [P[0]])
  {
    MembersSnoc(X, P[0]);
    assert P == [P[0]] + P[1..];
  }

  /** When the first candidate is in the clique, the clique lies within the
      branch's clique and candidates and avoids its excluded nodes. */
  lemma BranchNarrows(G: Graph, R: seq<int>, P: seq<int>, X: seq<int>, C: set<int>)
    requires IsGraph(G) && Loopless(G) && Inv(G, R, P, X) && P != [] && P[0] in C
    requires IsMaximalClique(G, C)
    requires Members(R) <= C <= Members(R) + Members(P) && C !! Members(X)
    ensures C <= Members(R + [P[0]]) + Members(Neighbours(G, P[0], P))
    ensures C !! Members(Neighbours(G, P[0], X))
  {
    var v := P[0];
    MembersSnoc(R, v);
    forall w | w in C && w !in Members(R + [v]) ensures w in Neighbours(G, v, P) {
      NeighboursMember(G, v, P, w);
    }
    forall w | w in Neighbours(G, v, X) ensures w !in C {
      NeighboursMember(G, v, X, w);
    }
  }

  // ---------------------------------------------------------------------
  // The enumeration's guarantees

  /** On a symmetric graph without self-loops, every reported list is a
      maximal clique of at least `minSize` distinct nodes. */
  lemma AllCliquesMaximal(G: Graph, minSize: nat)
    requires IsGraph(G) && Loopless(G) && Symmetric(G)
    ensures forall i :: 0 <= i < |AllCliques(G, minSize)| ==>
      var c := AllCliques(G, minSize)[i];
      |c| >= minSize && Distinct(c) && IsMaximalClique(G, Members(c))
  {
    InitialInv(G);
    FoundMaximal(G, minSize, [], Range(|G|), []);
    forall i | 0 <= i < |AllCliques(G, minSize)| ensures IsMaximalClique(G, Members(AllCliques(G, minSize)[i])) {
      ListIsMaximalClique(G, minSize, AllCliques(G, minSize)[i]);
    }
  }

  lemma ListIsMaximalClique(G: Graph, minSize: nat, c: seq<int>)
    requires IsGraph(G) && Symmetric(G) && MaximalList(G, minSize, c)
    ensures IsMaximalClique(G, Members(c))
  {
    var C := Members(c);
    forall a, b | a in C && b in C && a != b ensures G[a][b] {
      var i :| 0 <= i < |c| && c[i] == a;
      var j :| 0 <= j < |c| && c[j] == b;
      if j < i {
        assert G[b][a];
      }
    }
    forall u | 0 <= u < |G| && u !in C ensures exists a :: a in C && !G[a][u] {
      assert !AdjacentToAll(G, c, u);
      var t :| 0 <= t < |c| && !G[c[t]][u];
      assert c[t] in C;
    }
  }

  /** No maximal clique is reported twice. */
  lemma AllCliquesOnce(G: Graph, minSize: nat)
    requires IsGraph(G) && Loopless(G)
    ensures forall i, j :: 0 <= i < j < |AllCliques(G, minSize)| ==>
      Members(AllCliques(G, minSize)[i]) != Members(AllCliques(G, minSize)[j])
  {
    InitialInv(G);
    FoundOnce(G, minSize, [], Range(|G|), []);
  }

  /** Every maximal clique of at least `minSize` nodes is reported. */
  lemma AllCliquesComplete(G: Graph, minSize: nat, C: set<int>)
    requires IsGraph(G) && Loopless(G) && IsMaximalClique(G, C) && |C| >= minSize
    ensures exists i :: 0 <= i < |AllCliques(G, minSize)| && Members(AllCliques(G, minSize)[i]) == C
  {
    InitialInv(G);
    var P := Range(|G|);
    assert C <= Members(P) by {
      forall a | a in C ensures a in P {
        assert P[a] == a;
      }
    }
    assert Members([]) == {};
    FoundComplete(G, minSize, [], P, [], C);
    assert Reports(AllCliques(G, minSize), C);
  }

  /** In `network.cpp`'s enumeration an isolated node is reported as a
      clique of its own. */
  lemma IsolatedNodeReported(graph: seq<seq<int>>, v: int)
    requires forall u :: 0 <= u < |graph| ==> |graph[u]| == |graph|
    requires forall u :: 0 <= u < |graph| ==> graph[u][u] == 0
    requires 0 <= v < |graph| && forall u :: 0 <= u < |graph| ==> graph[v][u] == 0
    ensures exists i :: 0 <= i < |AllCliques(NonZero(graph), 0)| && AllCliques(NonZero(graph), 0)[i] == [v]
  {
    var G := NonZero(graph);
    assert IsMaximalClique(G, {v}) by {
      forall u | 0 <= u < |G| && u != v ensures !G[v][u] {
      }
    }
    AllCliquesComplete(G, 0, {v});
    var i :| 0 <= i < |AllCliques(G, 0)| && Members(AllCliques(G, 0)[i]) == {v};
    InitialInv(G);
    FoundMaximal(G, 0, [], Range(|G|), []);
    SingletonList(AllCliques(G, 0)[i], v);
  }

  lemma SingletonList(c: seq<int>, v: int)
    requires Distinct(c) && Members(c) == {v}
    ensures c == [v]
  {
    DistinctCard(c);
    assert |c| == 1;
    assert c[0] in Members(c);
  }

  // ---------------------------------------------------------------------
  // Self-loops

  /** As written, `findCliquesRecursive` keeps `v` among its own new
      candidates when `graph[v][v] != 0`. On the one-node graph with a
      self-loop, the call with candidates `[0]` and no non-candidates makes
      a call with candidates `[0]` and no non-candidates again, so the
      recursion never reaches its base case. */
  lemma AsWrittenSelfLoop()
    ensures IsGraph([[true]]) && !Loopless([[true]])
    ensures Neighbours([[true]], 0, [0]) == [0] && Neighbours([[true]], 0, []) == []
  {
    var G: Graph := [[true]];
    assert G[0][0];
    assert [0][..0] == [];
  }

  /** The graph with its self-loops dropped, which is what the enumeration
      needs: a clique never uses the edge from a node to itself. */
  function WithoutLoops(G: Graph): (H: Graph)
    requires IsGraph(G)
    ensures IsGraph(H) && |H| == |G| && Loopless(H)
    ensures forall v, w :: 0 <= v < |G| && 0 <= w < |G| && v != w ==> H[v][w] == G[v][w]
  {
    seq(|G|, v requires 0 <= v < |G| =>
      seq(|G|, w requires 0 <= w < |G| => v != w && G[v][w]))
  }

  /** On a graph already without self-loops nothing changes, so the model's
      callers, which pass loopless graphs, enumerate the same cliques. */
  lemma WithoutLoopsLoopless(G: Graph)
    requires IsGraph(G) && Loopless(G)
    ensures WithoutLoops(G) == G
  {
    var H := WithoutLoops(G);
    forall v | 0 <= v < |G| ensures H[v] == G[v] {
      assert forall w :: 0 <= w < |G| ==> H[v][w] == G[v][w];
    }
  }

  /** Maximal cliques ignore self-loops. */
  lemma MaximalWithoutLoops(G: Graph, C: set<int>)
    requires IsGraph(G)
    ensures IsMaximalClique(WithoutLoops(G), C) <==> IsMaximalClique(G, C)
  {
    var H := WithoutLoops(G);
    if IsMaximalClique(H, C) {
      forall u | 0 <= u < |G| && u !in C ensures exists a :: a in C && !G[a][u] {
        var a :| a in C && !H[a][u];
      }
    }
    if IsMaximalClique(G, C) {
      forall u | 0 <= u < |G| && u !in C ensures exists a :: a in C && !H[a][u] {
        var a :| a in C && !G[a][u];
      }
    }
  }

  /** The corrected enumeration, run on the graph without its self-loops,
      terminates on every symmetric graph and reports exactly its maximal
      cliques of at least `minSize` nodes, each once. */
  lemma CorrectedCliques(G: Graph, minSize: nat)
    requires IsGraph(G) && Symmetric(G)
    ensures forall i :: 0 <= i < |AllCliques(WithoutLoops(G), minSize)| ==>
      var c := AllCliques(WithoutLoops(G), minSize)[i];
      |c| >= minSize && Distinct(c) && IsMaximalClique(G, Members(c))
    ensures forall C :: IsMaximalClique(G, C) && |C| >= minSize ==>
      exists i :: 0 <= i < |AllCliques(WithoutLoops(G), minSize)| && Members(AllCliques(WithoutLoops(G), minSize)[i]) == C
  {
    var H := WithoutLoops(G);
    AllCliquesMaximal(H, minSize);
    forall i | 0 <= i < |AllCliques(H, minSize)| ensures IsMaximalClique(G, Members(AllCliques(H, minSize)[i])) {
      MaximalWithoutLoops(G, Members(AllCliques(H, minSize)[i]));
    }
    forall C | IsMaximalClique(G, C) && |C| >= minSize
      ensures exists i :: 0 <= i < |AllCliques(H, minSize)| && Members(AllCliques(H, minSize)[i]) == C
    {
      MaximalWithoutLoops(G, C);
      AllCliquesComplete(H, minSize, C);
    }
  }
}
