/** Iterative greedy community detection (`ig.cpp`): the greedy constructive
    procedure GCP builds a first partition node by node; each iteration then
    destructs it (removes a random share `beta` of the nodes) and reconstructs
    it (puts the removed nodes back greedily), keeping the result only when
    its modularity is strictly higher.

    Randomness is passed in: every shuffle of the node range is an argument
    (an order of `0 .. n - 1`). The trial loop and the community filter are
    shared with the Python version, which differs only in its modularity
    scorer, so they take the scorer as a parameter. */
module IterativeGreedy {
  import opened Common
  import opened Matrices
  import opened Modularity

  // ---------------------------------------------------------------------
  // Scoring a trial

  /** Which implementation's modularity scores a trial: the C++ one (pairs
      of distinct members) or the Python one (`combinations(community, 2)`). */
  datatype Scorer = Cpp | Py

  function Score(s: Scorer, A: Matrix, cs: seq<seq<int>>): real
    requires IsSquare(A, |A|)
  {
    match s
    case Cpp => Modularity.Modularity(A, cs)
    case Py => ModularityPyOf(A, cs)
  }

  method ScoreOf(s: Scorer, A: Matrix, cs: seq<seq<int>>) returns (q: real)
    requires IsSquare(A, |A|) && InRange(cs, |A|)
    ensures q == Score(s, A, cs)
  {
    match s
    case Cpp => q := ModularityCpp(A, cs);
    case Py => q := ModularityPy(A, cs);
  }

  /** On a nonnegative matrix, filtered to any node list, every score lies
      in [-1, 1]. */
  lemma FilteredScoreInRange(s: Scorer, A: Matrix, nodes: seq<int>, cs: seq<seq<int>>)
    requires IsSquare(A, |A|) && Nonnegative(A)
    ensures -1.0 <= Score(s, Filtered(A, nodes), cs) <= 1.0
  {
    var F := Filtered(A, nodes);
    FilteredNonneg(A, nodes);
    assert Nonnegative(F);
    match s
    case Cpp => ModularityInRange(F, cs);
    case Py => ModularityPyInRange(F, cs);
  }

  /** The scores of adding `v` to each community in turn. */
  function Trials(s: Scorer, F: Matrix, cs: seq<seq<int>>, v: int): (T: seq<real>)
    requires IsSquare(F, |F|)
    ensures |T| == |cs|
  {
    seq(|cs|, i requires 0 <= i < |cs| => Score(s, F, cs[i := cs[i] + [v]]))
  }

  /** Index `b` holds the largest score, and no earlier index reaches it. */
  predicate FirstMax(scores: seq<real>, b: int)
    requires 0 <= b < |scores|
  {
    (forall i :: 0 <= i < |scores| ==> scores[i] <= scores[b])
    && (forall i :: 0 <= i < b ==> scores[i] < scores[b])
  }

  /** The scan `if (Md > Mdb)` from `Mdb = -1`, `best = -1`: the first
      strictly largest score above -1 with its index, or (-1, -1) when no
      score exceeds -1. */
  function Best(scores: seq<real>): (r: (int, real))
    ensures -1 <= r.0 < |scores|
    ensures r.0 == -1 ==> r.1 == -1.0 && forall i :: 0 <= i < |scores| ==> scores[i] <= -1.0
    ensures r.0 >= 0 ==> r.1 == scores[r.0] && r.1 > -1.0 && FirstMax(scores, r.0)
  {
    if scores == [] then (-1, -1.0)
    else
      var r := Best(scores[..|scores| - 1]);
      var last := scores[|scores| - 1];
      if last > r.1 then (|scores| - 1, last) else r
  }

  /** The trial loop shared by GCP and reconstruct: each community in turn
      gets `v`, and the first strictly best score above -1 is kept. */
  method BestTrial(s: Scorer, F: Matrix, cs: seq<seq<int>>, v: int) returns (bestIndex: int, best: real)
    requires IsSquare(F, |F|) && InRange(cs, |F|) && 0 <= v < |F|
    ensures (bestIndex, best) == Best(Trials(s, F, cs, v))
  {
    ghost var T := Trials(s, F, cs, v);
    bestIndex, best := -1, -1.0;
    for i := 0 to |cs|
      invariant (bestIndex, best) == Best(T[..i])
    {
      var trial := cs[i := cs[i] + [v]];
      assert InRange(trial, |F|) by {
        forall c, t | 0 <= c < |trial| && 0 <= t < |trial[c]| ensures 0 <= trial[c][t] < |F| {
          if c == i && t == |cs[i]| {
            assert trial[c][t] == v;
          } else {
            assert trial[c][t] == cs[c][t];
          }
        }
      }
      var md := ScoreOf(s, F, trial);
      assert T[..i + 1][..i] == T[..i];
      if md > best {
        bestIndex, best := i, md;
      }
    }
    assert T[..|cs|] == T;
  }

  // ---------------------------------------------------------------------
  // Placing one node

  /** `cs` with `v` appended to community `b`, or in a new singleton
      community when `b` is -1. */
  function Insert(cs: seq<seq<int>>, b: int, v: int): (r: seq<seq<int>>)
    requires -1 <= b < |cs|
    ensures multiset(Flatten(r)) == multiset(Flatten(cs)) + multiset{v}
    ensures AllNonEmpty(cs) ==> AllNonEmpty(r)
  {
    if b == -1 then
      FlattenAppend(cs, [v]);
      cs + [[v]]
    else
      FlattenUpdateAppend(cs, b, v);
      cs[b := cs[b] + [v]]
  }

  lemma InsertInRange(cs: seq<seq<int>>, b: int, v: int, n: nat)
    requires -1 <= b < |cs| && InRange(cs, n) && 0 <= v < n
    ensures InRange(Insert(cs, b, v), n)
  {
    var r := Insert(cs, b, v);
    forall c, t | 0 <= c < |r| && 0 <= t < |r[c]| ensures 0 <= r[c][t] < n {
      if c < |cs| && t < |cs[c]| {
        assert r[c][t] == cs[c][t];
      }
    }
  }

  /** GCP's placement of `v` once `nodes` (which end in `v`) are in the
      graph: the first best community when that trial scores strictly above
      a new singleton, otherwise a new singleton; with the score kept. */
  function Place(s: Scorer, A: Matrix, cs: seq<seq<int>>, nodes: seq<int>, v: int): (r: (seq<seq<int>>, real))
    requires IsSquare(A, |A|) && Nonnegative(A)
    ensures multiset(Flatten(r.0)) == multiset(Flatten(cs)) + multiset{v}
    ensures AllNonEmpty(cs) ==> AllNonEmpty(r.0)
    ensures r.1 == Score(s, Filtered(A, nodes), r.0)
  {
    var F := Filtered(A, nodes);
    var b := Best(Trials(s, F, cs, v));
    var phi := Score(s, F, cs + [[v]]);
    FilteredScoreInRange(s, A, nodes, cs + [[v]]);
    if b.1 > phi then (Insert(cs, b.0, v), b.1) else (Insert(cs, -1, v), phi)
  }

  /** A node joins an existing community only when that trial scores
      strictly above the new singleton, and then the first best one; it
      opens a singleton exactly when no trial beats the singleton. */
  lemma PlaceChoice(s: Scorer, A: Matrix, cs: seq<seq<int>>, nodes: seq<int>, v: int)
    requires IsSquare(A, |A|) && Nonnegative(A)
    ensures var F := Filtered(A, nodes);
            var T, phi := Trials(s, F, cs, v), Score(s, F, cs + [[v]]);
            var r := Place(s, A, cs, nodes, v);
            (r == (cs + [[v]], phi) <==> forall i :: 0 <= i < |cs| ==> T[i] <= phi)
            && (r != (cs + [[v]], phi) ==>
                  exists b :: 0 <= b < |cs| && r == (cs[b := cs[b] + [v]], T[b]) && T[b] > phi && FirstMax(T, b))
  {
    var F := Filtered(A, nodes);
    var T, phi := Trials(s, F, cs, v), Score(s, F, cs + [[v]]);
    var b := Best(T);
    FilteredScoreInRange(s, A, nodes, cs + [[v]]);
    if b.1 > phi {
      assert |Place(s, A, cs, nodes, v).0| == |cs|;
      assert T[b.0] > phi;
    }
  }

  /** The communities and score after GCP has placed `order[..k]`: the first
      node alone, then each node by `Place`. Every placed node is listed
      exactly once and no community is empty. */
  function GcpFrom(s: Scorer, A: Matrix, order: seq<int>, k: nat): (r: (seq<seq<int>>, real))
    requires IsSquare(A, |A|) && Nonnegative(A)
    requires 1 <= k <= |order|
    decreases k
  {
    if k == 1 then ([[order[0]]], -1.0)
    else Place(s, A, GcpFrom(s, A, order, k - 1).0, order[..k], order[k - 1])
  }

  /** GCP lists every placed node exactly once, in non-empty communities. */
  lemma GcpCounts(s: Scorer, A: Matrix, order: seq<int>, k: nat)
    requires IsSquare(A, |A|) && Nonnegative(A)
    requires 1 <= k <= |order|
    ensures multiset(Flatten(GcpFrom(s, A, order, k).0)) == multiset(order[..k])
    ensures AllNonEmpty(GcpFrom(s, A, order, k).0)
  {
    FlattenAppend([], [order[0]]);
    assert [] + [[order[0]]] == [[order[0]]];
    for j := 1 to k
      invariant multiset(Flatten(GcpFrom(s, A, order, j).0)) == multiset(order[..j])
      invariant AllNonEmpty(GcpFrom(s, A, order, j).0)
    {
      GcpCountsStep(s, A, order, j);
    }
  }

  lemma GcpCountsStep(s: Scorer, A: Matrix, order: seq<int>, j: nat)
    requires IsSquare(A, |A|) && Nonnegative(A)
    requires 1 <= j < |order|
    requires multiset(Flatten(GcpFrom(s, A, order, j).0)) == multiset(order[..j])
    requires AllNonEmpty(GcpFrom(s, A, order, j).0)
    ensures multiset(Flatten(GcpFrom(s, A, order, j + 1).0)) == multiset(order[..j + 1])
    ensures AllNonEmpty(GcpFrom(s, A, order, j + 1).0)
  {
    var prev := GcpFrom(s, A, order, j).0;
    var r := Place(s, A, prev, order[..j + 1], order[j]);
    assert GcpFrom(s, A, order, j + 1) == r;
    PrefixCount(order, j);
  }

  /** GCP on a whole order of the nodes yields a partition. */
  lemma GcpPartition(s: Scorer, A: Matrix, order: seq<int>)
    requires IsSquare(A, |A|) && Nonnegative(A) && |A| >= 1
    requires IsOrder(order, |A|)
    ensures IsPartition(GcpFrom(s, A, order, |A|).0, |A|)
  {
    GcpCounts(s, A, order, |A|);
    assert order[..|A|] == order;
  }

  /** On a graph of two or more nodes the score GCP returns is the
      modularity of the partition it returns, on the whole graph. */
  lemma GcpScore(s: Scorer, A: Matrix, order: seq<int>)
    requires IsSquare(A, |A|) && Nonnegative(A) && |A| >= 2
    requires IsOrder(order, |A|)
    ensures GcpFrom(s, A, order, |A|).1 == Score(s, A, GcpFrom(s, A, order, |A|).0)
  {
    OrderFacts(order, |A|);
    assert order[..|A|] == order;
    forall i | 0 <= i < |A| ensures i in order {
      RangeCount(|A|, i);
      assert i in multiset(order);
    }
    FilteredAllAndIdempotent(A, order);
  }

  /** GCP: a first node alone, then each further node of `order` (the
      successive draws from the shuffled remaining nodes) placed by `Place`
      on the graph filtered to the nodes placed so far. The `nodes.size() > 1`
      test always holds inside the loop, so its other branch is not modelled. */
  method GCP(s: Scorer, A: Matrix, order: seq<int>) returns (communities: seq<seq<int>>, Mdb: real)
    requires IsSquare(A, |A|) && Nonnegative(A) && |A| >= 1
    requires IsOrder(order, |A|)
    ensures (communities, Mdb) == GcpFrom(s, A, order, |A|)
    ensures IsPartition(communities, |A|)
  {
    OrderEntry(order, |A|, 0);
    var v := order[0];
    communities := [[v]];
    var nodes := [v];
    Mdb := -1.0;
    var k := 1;
    while k < |A|
      invariant 1 <= k <= |A|
      invariant nodes == order[..k]
      invariant (communities, Mdb) == GcpFrom(s, A, order, k)
      invariant InRange(communities, |A|)
    {
      v := order[k];
      OrderEntry(order, |A|, k);
      PrefixCount(order, k);
      nodes := nodes + [v];
      communities, Mdb := PlaceNode(s, A, communities, nodes, v);
      k := k + 1;
    }
    GcpPartition(s, A, order);
  }

  /** One round of GCP's loop once `v` is pushed onto `nodes`: filter,
      try every community, compare with a new singleton. */
  method PlaceNode(s: Scorer, A: Matrix, communities: seq<seq<int>>, nodes: seq<int>, v: int)
    returns (placed: seq<seq<int>>, Mdb: real)
    requires IsSquare(A, |A|) && Nonnegative(A)
    requires InRange(communities, |A|) && 0 <= v < |A|
    ensures (placed, Mdb) == Place(s, A, communities, nodes, v)
    ensures InRange(placed, |A|)
  {
    var F := FilterAdjMatrix(A, nodes);
    var bestIndex, best := BestTrial(s, F, communities, v);
    InsertInRange(communities, -1, v, |A|);
    var phi := ScoreOf(s, F, communities + [[v]]);
    FilteredScoreInRange(s, A, nodes, communities + [[v]]);
    if best > phi {
      InsertInRange(communities, bestIndex, v, |A|);
      placed := communities[bestIndex := communities[bestIndex] + [v]];
      Mdb := best;
    } else {
      Mdb := phi;
      placed := communities + [[v]];
    }
  }

  // ---------------------------------------------------------------------
  // Destruct

  /** The members of `xs` that are not in `removed`, in their order. */
  function Without(xs: seq<int>, removed: seq<int>): (r: seq<int>)
    ensures |r| <= |xs|
  {
    if xs == [] then []
    else
      var init := xs[..|xs| - 1];
      var x := xs[|xs| - 1];
      if x in removed then Without(init, removed) else Without(init, removed) + [x]
  }

  /** The removed nodes vanish; every other value keeps its count. */
  lemma {:induction false} WithoutCount(xs: seq<int>, removed: seq<int>, x: int)
    ensures multiset(Without(xs, removed))[x] == if x in removed then 0 else multiset(xs)[x]
  {
    if xs != [] {
      var init := xs[..|xs| - 1];
      assert xs == init + [xs[|xs| - 1]];
      WithoutCount(init, removed, x);
    }
  }

  lemma {:induction false} WithoutInRange(xs: seq<int>, removed: seq<int>, n: nat)
    requires forall t :: 0 <= t < |xs| ==> 0 <= xs[t] < n
    ensures forall t :: 0 <= t < |Without(xs, removed)| ==> 0 <= Without(xs, removed)[t] < n
  {
    if xs != [] {
      WithoutInRange(xs[..|xs| - 1], removed, n);
    }
  }

  /** The keep-if-not-found loop of both the node list and each community. */
  method KeepUnremoved(xs: seq<int>, removed: seq<int>) returns (kept: seq<int>)
    ensures kept == Without(xs, removed)
  {
    kept := [];
    for t := 0 to |xs|
      invariant kept == Without(xs[..t], removed)
    {
      assert xs[..t + 1][..t] == xs[..t];
      if xs[t] !in removed {
        kept := kept + [xs[t]];
      }
    }
    assert xs[..|xs|] == xs;
  }

  /** Each community without the removed nodes, communities left empty
      dropped, the rest in their order. The removed nodes vanish and every
      other node keeps its count. */
  function FilterCommunities(cs: seq<seq<int>>, removed: seq<int>): (r: seq<seq<int>>)
    ensures AllNonEmpty(r)
  {
    if cs == [] then []
    else
      var init := FilterCommunities(cs[..|cs| - 1], removed);
      var kept := Without(cs[|cs| - 1], removed);
      if kept == [] then init else init + [kept]
  }

  /** Filtering removes the removed nodes and keeps every other count. */
  lemma {:induction false} FilterCount(cs: seq<seq<int>>, removed: seq<int>, x: int)
    ensures multiset(Flatten(FilterCommunities(cs, removed)))[x]
         == if x in removed then 0 else multiset(Flatten(cs))[x]
  {
    if cs != [] {
      var init := cs[..|cs| - 1];
      var last := cs[|cs| - 1];
      var finit := FilterCommunities(init, removed);
      var kept := Without(last, removed);
      FilterCount(init, removed, x);
      WithoutCount(last, removed, x);
      assert Flatten(cs) == Flatten(init) + last;
      if kept != [] {
        FlattenAppend(finit, kept);
      }
    }
  }

  lemma {:induction false} FilterInRange(cs: seq<seq<int>>, removed: seq<int>, n: nat)
    requires InRange(cs, n)
    ensures InRange(FilterCommunities(cs, removed), n)
  {
    if cs != [] {
      var init := cs[..|cs| - 1];
      assert InRange(init, n) by {
        forall c, t | 0 <= c < |init| && 0 <= t < |init[c]| ensures 0 <= init[c][t] < n {
          assert init[c] == cs[c];
        }
      }
      FilterInRange(init, removed, n);
      var last := cs[|cs| - 1];
      WithoutInRange(last, removed, n);
    }
  }

  /** `static_cast<int>(beta * n)` for `0 <= beta <= 1`: the floor. */
  function RemoveCount(beta: real, n: nat): (k: nat)
    requires 0.0 <= beta <= 1.0
    ensures k <= n
  {
    var x := beta * n as real;
    assert 0.0 <= x <= n as real by {
      ScaleDown(n as real, beta);
      assert Scale(n as real, beta) == x;
    }
    x.Floor
  }

  /** destruct: `n` is the number of listed nodes; the first
      `floor(beta * n)` entries of the shuffled `0 .. n - 1` are removed and
      every community is filtered. */
  method Destruct(communities: seq<seq<int>>, beta: real, shuffled: seq<int>)
    returns (removedNodes: seq<int>, filtered: seq<seq<int>>)
    requires 0.0 <= beta <= 1.0
    requires IsOrder(shuffled, |Flatten(communities)|)
    ensures removedNodes == shuffled[..RemoveCount(beta, |Flatten(communities)|)]
    ensures filtered == FilterCommunities(communities, removedNodes)
  {
    var n := 0;
    for i := 0 to |communities|
      invariant n == |Flatten(communities[..i])|
    {
      assert communities[..i + 1] == communities[..i] + [communities[i]];
      FlattenAppend(communities[..i], communities[i]);
      n := n + |communities[i]|;
    }
    assert communities[..|communities|] == communities;
    OrderFacts(shuffled, n);
    var removeCount := RemoveCount(beta, n);
    removedNodes := shuffled[..removeCount];
    filtered := [];
    for i := 0 to |communities|
      invariant filtered == FilterCommunities(communities[..i], removedNodes)
    {
      assert communities[..i + 1][..i] == communities[..i];
      var kept := KeepUnremoved(communities[i], removedNodes);
      if kept != [] {
        filtered := filtered + [kept];
      }
    }
  }

  /** A prefix of an order lists nodes below `n`. */
  lemma RemovedInRange(shuffled: seq<int>, n: nat, k: nat)
    requires IsOrder(shuffled, n) && k <= n
    ensures forall t :: 0 <= t < k ==> 0 <= shuffled[..k][t] < n
  {
    OrderFacts(shuffled, n);
  }

  /** A partition has `n` listed nodes. */
  lemma PartitionSize(cs: seq<seq<int>>, n: nat)
    requires IsPartition(cs, n)
    ensures |Flatten(cs)| == n
  {
    assert |Flatten(cs)| == |multiset(Flatten(cs))| == |multiset(Range(n))|;
  }

  /** Destructing a partition splits the nodes between the kept communities
      and the removed list: together they list every node once. */
  lemma DestructSplits(cs: seq<seq<int>>, n: nat, removed: seq<int>)
    requires IsPartition(cs, n)
    requires Distinct(removed) && forall t :: 0 <= t < |removed| ==> 0 <= removed[t] < n
    ensures multiset(Flatten(FilterCommunities(cs, removed))) + multiset(removed) == multiset(Range(n))
  {
    var kept := multiset(Flatten(FilterCommunities(cs, removed)));
    forall x ensures (kept + multiset(removed))[x] == multiset(Range(n))[x] {
      FilterCount(cs, removed, x);
      DistinctCount(removed, x);
      RangeCount(n, x);
    }
  }

  // ---------------------------------------------------------------------
  // Reconstruct

  /** reconstruct's placement of `v` on the graph filtered to `nodes`: the
      first best community when its score is at least that of the
      communities without `v` and differs from -1, otherwise a new singleton
      whose score is that of the communities without `v`. */
  function Reinsert(s: Scorer, A: Matrix, cs: seq<seq<int>>, nodes: seq<int>, v: int): (r: (seq<seq<int>>, real))
    requires IsSquare(A, |A|)
    ensures multiset(Flatten(r.0)) == multiset(Flatten(cs)) + multiset{v}
    ensures AllNonEmpty(cs) ==> AllNonEmpty(r.0)
  {
    var F := Filtered(A, nodes);
    var b := Best(Trials(s, F, cs, v));
    var phi := Score(s, F, cs);
    if b.1 >= phi && b.1 != -1.0 then (Insert(cs, b.0, v), b.1) else (Insert(cs, -1, v), phi)
  }

  /** A reinserted node joins the first best community when that trial is
      above -1 and not below the score without the node; it opens a
      singleton exactly when every trial is below that score or none is
      above -1. */
  lemma ReinsertChoice(s: Scorer, A: Matrix, cs: seq<seq<int>>, nodes: seq<int>, v: int)
    requires IsSquare(A, |A|)
    ensures var F := Filtered(A, nodes);
            var T, phi := Trials(s, F, cs, v), Score(s, F, cs);
            var r := Reinsert(s, A, cs, nodes, v);
            (r == (cs + [[v]], phi) <==> (forall i :: 0 <= i < |cs| ==> T[i] < phi) || (forall i :: 0 <= i < |cs| ==> T[i] <= -1.0))
            && (r != (cs + [[v]], phi) ==>
                  exists b :: 0 <= b < |cs| && r == (cs[b := cs[b] + [v]], T[b]) && T[b] >= phi && T[b] > -1.0 && FirstMax(T, b))
  {
    var F := Filtered(A, nodes);
    var T, phi := Trials(s, F, cs, v), Score(s, F, cs);
    var b := Best(T);
    if b.1 >= phi && b.1 != -1.0 {
      assert |Reinsert(s, A, cs, nodes, v).0| == |cs|;
      assert T[b.0] >= phi && T[b.0] > -1.0;
    }
  }

  /** One round of reconstruct's loop on the node list `nodes` (which holds
      `v`): filter, try every community, compare with the score without `v`. */
  method ReinsertNode(s: Scorer, A: Matrix, communities: seq<seq<int>>, nodes: seq<int>, v: int)
    returns (placed: seq<seq<int>>, Mdb: real)
    requires IsSquare(A, |A|) && InRange(communities, |A|) && 0 <= v < |A|
    ensures (placed, Mdb) == Reinsert(s, A, communities, nodes, v)
    ensures InRange(placed, |A|)
  {
    var F := FilterAdjMatrix(A, nodes);
    var bestIndex, best := BestTrial(s, F, communities, v);
    var phi := ScoreOf(s, F, communities);
    if best >= phi && best != -1.0 {
      InsertInRange(communities, bestIndex, v, |A|);
      placed := communities[bestIndex := communities[bestIndex] + [v]];
      Mdb := best;
    } else {
      InsertInRange(communities, -1, v, |A|);
      placed := communities + [[v]];
      Mdb := phi;
    }
  }

  /** The C++ reconstruct after `removed[..k]` are back: each removed node
      is tried on the graph filtered to the non-removed nodes plus itself. */
  function ReconstructFrom(A: Matrix, cs: seq<seq<int>>, removed: seq<int>, k: nat): (r: (seq<seq<int>>, real))
    requires IsSquare(A, |A|) && k <= |removed|
    ensures multiset(Flatten(r.0)) == multiset(Flatten(cs)) + multiset(removed[..k])
    ensures AllNonEmpty(cs) ==> AllNonEmpty(r.0)
  {
    if k == 0 then (cs, -1.0)
    else
      assert removed[..k] == removed[..k - 1] + [removed[k - 1]];
      Reinsert(Cpp, A, ReconstructFrom(A, cs, removed, k - 1).0, Without(Range(|A|), removed) + [removed[k - 1]], removed[k - 1])
  }

  /** reconstruct: the node list is `0 .. N - 1` without the removed nodes;
      each removed node in turn is pushed, placed by `Reinsert` and popped
      again, so the trial graph never holds another removed node. */
  method Reconstruct(A: Matrix, communities: seq<seq<int>>, removedNodes: seq<int>)
    returns (result: seq<seq<int>>, Mdb: real)
    requires IsSquare(A, |A|) && InRange(communities, |A|)
    requires forall t :: 0 <= t < |removedNodes| ==> 0 <= removedNodes[t] < |A|
    ensures (result, Mdb) == ReconstructFrom(A, communities, removedNodes, |removedNodes|)
  {
    var nodes := KeepUnremoved(Range(|A|), removedNodes);
    result, Mdb := communities, -1.0;
    for k := 0 to |removedNodes|
      invariant (result, Mdb) == ReconstructFrom(A, communities, removedNodes, k)
      invariant InRange(result, |A|)
    {
      var node := removedNodes[k];
      result, Mdb := ReinsertNode(Cpp, A, result, nodes + [node], node);
    }
  }


  // ---------------------------------------------------------------------
  // The iteration

  /** Destruct with `shuffled`, then reconstruct: a partition again. */
  function Rebuilt(A: Matrix, beta: real, current: seq<seq<int>>, shuffled: seq<int>): (r: seq<seq<int>>)
    requires IsSquare(A, |A|) && 0.0 <= beta <= 1.0
    requires IsPartition(current, |A|) && IsOrder(shuffled, |A|)
    ensures IsPartition(r, |A|)
  {
    PartitionSize(current, |A|);
    var removed := shuffled[..RemoveCount(beta, |Flatten(current)|)];
    RebuiltIsPartition(A, current, shuffled, |removed|);
    ReconstructFrom(A, FilterCommunities(current, removed), removed, |removed|).0
  }

  /** One IG iteration on a partition: keep the rebuilt partition only if
      its modularity is strictly higher. The result is a partition again,
      and it is either unchanged or scores strictly higher. */
  function IgStep(A: Matrix, beta: real, current: seq<seq<int>>, shuffled: seq<int>): (r: seq<seq<int>>)
    requires IsSquare(A, |A|) && 0.0 <= beta <= 1.0
    requires IsPartition(current, |A|) && IsOrder(shuffled, |A|)
    ensures IsPartition(r, |A|)
    ensures r == current || Modularity.Modularity(A, r) > Modularity.Modularity(A, current)
  {
    var rebuilt := Rebuilt(A, beta, current, shuffled);
    if Modularity.Modularity(A, rebuilt) > Modularity.Modularity(A, current) then rebuilt else current
  }

  /** Destructing a partition with a prefix of a shuffle and reconstructing
      gives a partition again. */
  lemma RebuiltIsPartition(A: Matrix, current: seq<seq<int>>, shuffled: seq<int>, k: nat)
    requires IsSquare(A, |A|) && IsPartition(current, |A|)
    requires IsOrder(shuffled, |A|) && k <= |A|
    ensures var removed := shuffled[..k];
            IsPartition(ReconstructFrom(A, FilterCommunities(current, removed), removed, k).0, |A|)
  {
    var removed := shuffled[..k];
    OrderFacts(shuffled, |A|);
    assert Distinct(removed);
    DestructSplits(current, |A|, removed);
    assert removed[..k] == removed;
  }

  /** GCP on `order`, then `k` IG iterations, the i-th destructing with
      `shuffles[i]`. Each iteration keeps a partition and never lowers the
      modularity, so the result is a partition scoring at least GCP's. */
  function IgFrom(A: Matrix, beta: real, order: seq<int>, shuffles: seq<seq<int>>, k: nat): (r: seq<seq<int>>)
    requires IsSquare(A, |A|) && Nonnegative(A) && |A| >= 1 && 0.0 <= beta <= 1.0
    requires IsOrder(order, |A|)
    requires k <= |shuffles| && forall i :: 0 <= i < |shuffles| ==> IsOrder(shuffles[i], |A|)
    ensures IsPartition(r, |A|)
  {
    if k == 0 then
      GcpPartition(Cpp, A, order);
      GcpFrom(Cpp, A, order, |A|).0
    else
      IgStep(A, beta, IgFrom(A, beta, order, shuffles, k - 1), shuffles[k - 1])
  }

  /** IG never ends below the modularity of GCP's partition. */
  lemma IgImproves(A: Matrix, beta: real, order: seq<int>, shuffles: seq<seq<int>>, k: nat)
    requires IsSquare(A, |A|) && Nonnegative(A) && |A| >= 1 && 0.0 <= beta <= 1.0
    requires IsOrder(order, |A|)
    requires k <= |shuffles| && forall i :: 0 <= i < |shuffles| ==> IsOrder(shuffles[i], |A|)
    ensures Modularity.Modularity(A, IgFrom(A, beta, order, shuffles, k))
         >= Modularity.Modularity(A, GcpFrom(Cpp, A, order, |A|).0)
  {
    var q := Modularity.Modularity(A, GcpFrom(Cpp, A, order, |A|).0);
    for j := 0 to k
      invariant Modularity.Modularity(A, IgFrom(A, beta, order, shuffles, j)) >= q
    {
      IgStepAbove(A, beta, order, shuffles, j, q);
    }
  }

  lemma IgStepAbove(A: Matrix, beta: real, order: seq<int>, shuffles: seq<seq<int>>, j: nat, q: real)
    requires IsSquare(A, |A|) && Nonnegative(A) && |A| >= 1 && 0.0 <= beta <= 1.0
    requires IsOrder(order, |A|)
    requires j < |shuffles| && forall i :: 0 <= i < |shuffles| ==> IsOrder(shuffles[i], |A|)
    requires Modularity.Modularity(A, IgFrom(A, beta, order, shuffles, j)) >= q
    ensures Modularity.Modularity(A, IgFrom(A, beta, order, shuffles, j + 1)) >= q
  {
    assert IgFrom(A, beta, order, shuffles, j + 1)
        == IgStep(A, beta, IgFrom(A, beta, order, shuffles, j), shuffles[j]);
  }

  /** IG: GCP, then one iteration per shuffle (`nb_iterations` is the number
      of shuffles). */
  method IG(A: Matrix, beta: real, order: seq<int>, shuffles: seq<seq<int>>) returns (communities: seq<seq<int>>)
    requires IsSquare(A, |A|) && Nonnegative(A) && |A| >= 1 && 0.0 <= beta <= 1.0
    requires IsOrder(order, |A|)
    requires forall i :: 0 <= i < |shuffles| ==> IsOrder(shuffles[i], |A|)
    ensures communities == IgFrom(A, beta, order, shuffles, |shuffles|)
    ensures IsPartition(communities, |A|)
    ensures Modularity.Modularity(A, communities) >= Modularity.Modularity(A, GcpFrom(Cpp, A, order, |A|).0)
  {
    var mod;
    communities, mod := GCP(Cpp, A, order);
    for i := 0 to |shuffles|
      invariant communities == IgFrom(A, beta, order, shuffles, i)
    {
      communities := Iterate(A, beta, communities, shuffles[i]);
    }
    IgImproves(A, beta, order, shuffles, |shuffles|);
  }

  /** The body of IG's loop: destruct, reconstruct, accept on a strictly
      higher modularity. (The running score it also updates is never
      returned.) */
  method Iterate(A: Matrix, beta: real, communities: seq<seq<int>>, shuffled: seq<int>) returns (next: seq<seq<int>>)
    requires IsSquare(A, |A|) && 0.0 <= beta <= 1.0
    requires IsPartition(communities, |A|) && IsOrder(shuffled, |A|)
    ensures next == IgStep(A, beta, communities, shuffled)
  {
    var rebuilt := Rebuild(A, beta, communities, shuffled);
    PartitionInRange(rebuilt, |A|);
    PartitionInRange(communities, |A|);
    var q1 := ModularityCpp(A, rebuilt);
    var q0 := ModularityCpp(A, communities);
    next := if q1 > q0 then rebuilt else communities;
  }

  method Rebuild(A: Matrix, beta: real, communities: seq<seq<int>>, shuffled: seq<int>) returns (rebuilt: seq<seq<int>>)
    requires IsSquare(A, |A|) && 0.0 <= beta <= 1.0
    requires IsPartition(communities, |A|) && IsOrder(shuffled, |A|)
    ensures rebuilt == Rebuilt(A, beta, communities, shuffled)
  {
    PartitionSize(communities, |A|);
    var removedNodes, filtered := Destruct(communities, beta, shuffled);
    RemovedInRange(shuffled, |A|, |removedNodes|);
    PartitionInRange(communities, |A|);
    FilterInRange(communities, removedNodes, |A|);
    var newMod;
    rebuilt, newMod := Reconstruct(A, filtered, removedNodes);
  }
}
