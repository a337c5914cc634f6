/** The Python iterative greedy (`iterative_greedy_algorithm.py`). GCP is
    the C++ procedure with the Python scorer; destruct draws from the whole
    node range; reconstruct keeps every reinserted node in the trial graph
    and, as written, has no guard against a trial loop that found nothing
    (see `ReinsertAsWritten`); the model uses the guarded rule of the C++
    code. IG also records the score and the partition of every accepted
    iteration. */
module IterativeGreedyPy {
  import opened Common
  import opened Matrices
  import opened Modularity
  import opened IterativeGreedy

  // ---------------------------------------------------------------------
  // GCP: the Python and C++ procedures agree

  /** No node is listed twice. */
  ghost predicate NoRepeats(cs: seq<seq<int>>)
  {
    forall x :: multiset(Flatten(cs))[x] <= 1
  }

  lemma {:induction false} CommunityWithinFlatten(cs: seq<seq<int>>, c: nat)
    requires c < |cs|
    ensures multiset(cs[c]) <= multiset(Flatten(cs))
  {
    var init := cs[..|cs| - 1];
    assert Flatten(cs) == Flatten(init) + cs[|cs| - 1];
    if c < |cs| - 1 {
      assert init[c] == cs[c];
      CommunityWithinFlatten(init, c);
    }
  }

  /** Without repeats every community lists distinct nodes. */
  lemma NoRepeatsDistinct(cs: seq<seq<int>>)
    requires NoRepeats(cs)
    ensures forall c :: 0 <= c < |cs| ==> Distinct(cs[c])
  {
    forall c, i, j | 0 <= c < |cs| && 0 <= i < j < |cs[c]| ensures cs[c][i] != cs[c][j] {
      if cs[c][i] == cs[c][j] {
        var x := cs[c][i];
        var m := cs[c];
        assert m == m[..j] + [x] + m[j + 1..];
        assert x in m[..j];
        assert multiset(m)[x] >= 2;
        CommunityWithinFlatten(cs, c);
      }
    }
  }

  /** Adding a node that is not yet listed keeps every community free of
      repeats, so the two scorers agree on it. */
  lemma ScorersAgreeOnInsert(F: Matrix, cs: seq<seq<int>>, b: int, v: int)
    requires IsSquare(F, |F|) && -1 <= b < |cs|
    requires NoRepeats(cs) && multiset(Flatten(cs))[v] == 0
    ensures Score(Py, F, Insert(cs, b, v)) == Score(Cpp, F, Insert(cs, b, v))
  {
    var r := Insert(cs, b, v);
    assert NoRepeats(r);
    NoRepeatsDistinct(r);
    ModularityPyIsCpp(F, r);
  }

  lemma PlaceAgrees(A: Matrix, cs: seq<seq<int>>, nodes: seq<int>, v: int)
    requires IsSquare(A, |A|) && Nonnegative(A)
    requires NoRepeats(cs) && multiset(Flatten(cs))[v] == 0
    ensures Place(Py, A, cs, nodes, v) == Place(Cpp, A, cs, nodes, v)
  {
    var F := Filtered(A, nodes);
    var P, C := Trials(Py, F, cs, v), Trials(Cpp, F, cs, v);
    forall i | 0 <= i < |cs| ensures P[i] == C[i] {
      ScorersAgreeOnInsert(F, cs, i, v);
    }
    assert P == C;
    ScorersAgreeOnInsert(F, cs, -1, v);
  }

  /** Given the same draws, the Python GCP builds the same partition with
      the same score as the C++ one. */
  lemma GcpAgrees(A: Matrix, order: seq<int>, k: nat)
    requires IsSquare(A, |A|) && Nonnegative(A)
    requires 1 <= k <= |order| && Distinct(order)
    ensures GcpFrom(Py, A, order, k) == GcpFrom(Cpp, A, order, k)
  {
    for j := 1 to k
      invariant GcpFrom(Py, A, order, j) == GcpFrom(Cpp, A, order, j)
    {
      GcpAgreesStep(A, order, j);
    }
  }

  lemma GcpAgreesStep(A: Matrix, order: seq<int>, j: nat)
    requires IsSquare(A, |A|) && Nonnegative(A)
    requires 1 <= j < |order| && Distinct(order)
    requires GcpFrom(Py, A, order, j) == GcpFrom(Cpp, A, order, j)
    ensures GcpFrom(Py, A, order, j + 1) == GcpFrom(Cpp, A, order, j + 1)
  {
    var cs := GcpFrom(Cpp, A, order, j).0;
    GcpCounts(Cpp, A, order, j);
    var placed := order[..j];
    assert Distinct(placed);
    forall x ensures multiset(placed)[x] <= 1 {
      DistinctCount(placed, x);
    }
    assert order[j] !in placed;
    PlaceAgrees(A, cs, order[..j + 1], order[j]);
  }

  // ---------------------------------------------------------------------
  // destruct

  /** destruct: `int(beta * N)` distinct nodes drawn from `0 .. N - 1` (the
      first entries of a shuffle of the range), then every community
      filtered. */
  method Destruct(n: nat, communities: seq<seq<int>>, beta: real, shuffled: seq<int>)
    returns (removedNodes: seq<int>, filtered: seq<seq<int>>)
    requires 0.0 <= beta <= 1.0
    requires IsOrder(shuffled, n)
    ensures removedNodes == shuffled[..RemoveCount(beta, n)]
    ensures filtered == FilterCommunities(communities, removedNodes)
  {
    removedNodes := shuffled[..RemoveCount(beta, n)];
    filtered := [];
    for i := 0 to |communities|
      invariant filtered == FilterCommunities(communities[..i], removedNodes)
    {
      assert communities[..i + 1][..i] == communities[..i];
      var kept := KeepUnremoved(communities[i], removedNodes);
      if kept != [] {
        filtered := filtered + [kept];
      }
    }
    assert communities[..|communities|] == communities;
  }

  // ---------------------------------------------------------------------
  // reconstruct

  /** The Python placement rule as written: `Mdb >= Mdphi` with no guard.
      When every trial scored -1 (or there is no community) the scan leaves
      the index at -1 and `communities[-1] = None` overwrites the last
      community (or raises on an empty list): the node is not placed and
      the result is no longer a list of communities, shown as `None`. */
  function ReinsertAsWritten(A: Matrix, cs: seq<seq<int>>, nodes: seq<int>, v: int): (r: Option<(seq<seq<int>>, real)>)
    requires IsSquare(A, |A|)
    ensures r.Some? ==> r.value == Reinsert(Py, A, cs, nodes, v)
  {
    var F := Filtered(A, nodes);
    var b := Best(Trials(Py, F, cs, v));
    var phi := ModularityPyOf(F, cs);
    if b.1 >= phi then
      if b.0 == -1 then None else Some((Insert(cs, b.0, v), b.1))
    else Some((Insert(cs, -1, v), phi))
  }

  /** On a nonnegative matrix the written rule goes wrong exactly when every
      trial and the score without the node are all -1. */
  lemma AsWrittenFailsExactly(A: Matrix, cs: seq<seq<int>>, nodes: seq<int>, v: int)
    requires IsSquare(A, |A|) && Nonnegative(A)
    ensures var F := Filtered(A, nodes);
            var T := Trials(Py, F, cs, v);
            ReinsertAsWritten(A, cs, nodes, v).None?
            <==> (ModularityPyOf(F, cs) == -1.0 && forall i :: 0 <= i < |cs| ==> T[i] == -1.0)
  {
    var F := Filtered(A, nodes);
    var T := Trials(Py, F, cs, v);
    FilteredScoreInRange(Py, A, nodes, cs);
    forall i | 0 <= i < |cs| ensures T[i] >= -1.0 {
      FilteredScoreInRange(Py, A, nodes, cs[i := cs[i] + [v]]);
    }
    var b := Best(T);
    if b.0 >= 0 {
      assert T[b.0] > -1.0;
    }
  }

  /** A matrix of zeros has zero total weight. */
  lemma ZeroWeight(A: Matrix)
    requires IsSquare(A, |A|)
    requires forall i, j :: 0 <= i < |A| && 0 <= j < |A| ==> A[i][j] == 0.0
    ensures TotalWeight(A) == 0.0
  {
    var k := Degrees(A);
    forall i | 0 <= i < |A| ensures k[i] == 0.0 {
      SumScale(A[i], A[i], 0.0);
    }
    SumScale(k, k, 0.0);
  }

  /** Two nodes without edges, community [[0]], node 1 reinserted: every
      score is -1, the written rule overwrites the last community and loses
      node 1, while the guarded rule opens the singleton [1]. */
  lemma AsWrittenLosesNode()
    ensures var A := [[0.0, 0.0], [0.0, 0.0]];
            ReinsertAsWritten(A, [[0]], [0, 1], 1).None?
            && Reinsert(Py, A, [[0]], [0, 1], 1) == ([[0], [1]], -1.0)
  {
    var A := [[0.0, 0.0], [0.0, 0.0]];
    var F := Filtered(A, [0, 1]);
    ZeroWeight(F);
    var cs: seq<seq<int>> := [[0]];
    assert ModularityPyOf(F, cs) == -1.0;
    assert ModularityPyOf(F, cs[0 := cs[0] + [1]]) == -1.0;
    var T := Trials(Py, F, cs, 1);
    assert T == [-1.0];
    assert Best(T) == (-1, -1.0) by {
      assert T[..0] == [];
    }
    assert Score(Py, F, cs) == -1.0;
    assert Insert(cs, -1, 1) == [[0], [1]];
    assert Reinsert(Py, A, cs, [0, 1], 1) == ([[0], [1]], -1.0);
  }

  /** The nodes of reconstruct's trial graph once `removed[..k]` are back. */
  function TrialNodes(n: nat, removed: seq<int>, k: nat): seq<int>
    requires k <= |removed|
  {
    Without(Range(n), removed) + removed[..k]
  }

  /** The Python reconstruct (with the C++ guard) after `removed[..k]` are
      back: each removed node is tried on the graph of the non-removed nodes
      and every node reinserted so far. */
  function ReconstructFrom(A: Matrix, cs: seq<seq<int>>, removed: seq<int>, k: nat): (r: (seq<seq<int>>, real))
    requires IsSquare(A, |A|) && k <= |removed|
    ensures multiset(Flatten(r.0)) == multiset(Flatten(cs)) + multiset(removed[..k])
    ensures AllNonEmpty(cs) ==> AllNonEmpty(r.0)
  {
    if k == 0 then (cs, -1.0)
    else
      PrefixCount(removed, k - 1);
      Reinsert(Py, A, ReconstructFrom(A, cs, removed, k - 1).0, TrialNodes(|A|, removed, k), removed[k - 1])
  }

  /** reconstruct: the node list starts as `0 .. N - 1` without the removed
      nodes and grows by each reinserted node. */
  method Reconstruct(A: Matrix, communities: seq<seq<int>>, removedNodes: seq<int>)
    returns (result: seq<seq<int>>, Mdb: real)
    requires IsSquare(A, |A|) && InRange(communities, |A|)
    requires forall t :: 0 <= t < |removedNodes| ==> 0 <= removedNodes[t] < |A|
    ensures (result, Mdb) == ReconstructFrom(A, communities, removedNodes, |removedNodes|)
  {
    var nodes := KeepUnremoved(Range(|A|), removedNodes);
    result, Mdb := communities, -1.0;
    TrialNodesStart(|A|, removedNodes);
    for k := 0 to |removedNodes|
      invariant nodes == TrialNodes(|A|, removedNodes, k)
      invariant (result, Mdb) == ReconstructFrom(A, communities, removedNodes, k)
      invariant InRange(result, |A|)
    {
      nodes, result, Mdb := ReinsertNext(A, communities, removedNodes, k, nodes, result);
    }
  }

  /** One pass of reconstruct's loop: the next removed node joins the trial
      graph and is reinserted. */
  method ReinsertNext(A: Matrix, communities: seq<seq<int>>, removedNodes: seq<int>, k: nat, nodes: seq<int>, current: seq<seq<int>>)
    returns (nodes': seq<int>, result: seq<seq<int>>, Mdb: real)
    requires IsSquare(A, |A|) && k < |removedNodes| && 0 <= removedNodes[k] < |A|
    requires nodes == TrialNodes(|A|, removedNodes, k)
    requires current == ReconstructFrom(A, communities, removedNodes, k).0 && InRange(current, |A|)
    ensures nodes' == TrialNodes(|A|, removedNodes, k + 1)
    ensures (result, Mdb) == ReconstructFrom(A, communities, removedNodes, k + 1)
    ensures InRange(result, |A|)
  {
    var node := removedNodes[k];
    GrownNodes(|A|, removedNodes, k);
    nodes' := nodes + [node];
    result, Mdb := ReinsertNode(Py, A, current, nodes', node);
  }

  lemma TrialNodesStart(n: nat, removed: seq<int>)
    ensures TrialNodes(n, removed, 0) == Without(Range(n), removed)
  {
    assert removed[..0] == [];
  }

  lemma GrownNodes(n: nat, removed: seq<int>, k: nat)
    requires k < |removed|
    ensures TrialNodes(n, removed, k) + [removed[k]] == TrialNodes(n, removed, k + 1)
  {
    PrefixCount(removed, k);
  }

  // ---------------------------------------------------------------------
  // IG with its traces

  /** A partition with its trace of accepted scores and partitions. */
  datatype Run = Run(communities: seq<seq<int>>, modularityTrace: seq<real>, communitiesTrace: seq<seq<seq<int>>>)

  /** Every accepted partition scores strictly above the one before. */
  predicate Improving(A: Matrix, trace: seq<seq<seq<int>>>)
    requires IsSquare(A, |A|)
  {
    forall i :: 0 <= i < |trace| - 1 ==> ModularityPyOf(A, trace[i]) < ModularityPyOf(A, trace[i + 1])
  }

  /** Destruct with `shuffled`, then reconstruct: a partition again. */
  function Rebuilt(A: Matrix, beta: real, current: seq<seq<int>>, shuffled: seq<int>): (r: (seq<seq<int>>, real))
    requires IsSquare(A, |A|) && 0.0 <= beta <= 1.0
    requires IsPartition(current, |A|) && IsOrder(shuffled, |A|)
    ensures IsPartition(r.0, |A|)
  {
    var removed := shuffled[..RemoveCount(beta, |A|)];
    RebuiltIsPartition(A, current, shuffled, |removed|);
    ReconstructFrom(A, FilterCommunities(current, removed), removed, |removed|)
  }

  lemma RebuiltIsPartition(A: Matrix, current: seq<seq<int>>, shuffled: seq<int>, k: nat)
    requires IsSquare(A, |A|) && IsPartition(current, |A|)
    requires IsOrder(shuffled, |A|) && k <= |A|
    ensures var removed := shuffled[..k];
            IsPartition(ReconstructFrom(A, FilterCommunities(current, removed), removed, k).0, |A|)
  {
    var removed := shuffled[..k];
    OrderFacts(shuffled, |A|);
    assert Distinct(removed);
    DestructSplits(current, |A|, removed);
    assert removed[..k] == removed;
  }

  /** One iteration: accept the rebuilt partition, and record it and its
      reconstruct score, only if its modularity is strictly higher. */
  function IgStep(A: Matrix, beta: real, run: Run, shuffled: seq<int>): (r: Run)
    requires IsSquare(A, |A|) && 0.0 <= beta <= 1.0
    requires IsPartition(run.communities, |A|) && IsOrder(shuffled, |A|)
    ensures IsPartition(r.communities, |A|)
  {
    var rebuilt := Rebuilt(A, beta, run.communities, shuffled);
    if ModularityPyOf(A, rebuilt.0) > ModularityPyOf(A, run.communities) then
      Run(rebuilt.0, run.modularityTrace + [rebuilt.1], run.communitiesTrace + [rebuilt.0])
    else run
  }

  /** GCP on `order`, then `k` iterations. */
  function IgFrom(A: Matrix, beta: real, order: seq<int>, shuffles: seq<seq<int>>, k: nat): (r: Run)
    requires IsSquare(A, |A|) && Nonnegative(A) && |A| >= 1 && 0.0 <= beta <= 1.0
    requires IsOrder(order, |A|)
    requires k <= |shuffles| && forall i :: 0 <= i < |shuffles| ==> IsOrder(shuffles[i], |A|)
    ensures IsPartition(r.communities, |A|)
  {
    if k == 0 then
      GcpPartition(Py, A, order);
      var g := GcpFrom(Py, A, order, |A|);
      Run(g.0, [g.1], [g.0])
    else
      IgStep(A, beta, IgFrom(A, beta, order, shuffles, k - 1), shuffles[k - 1])
  }

  /** The traces start at GCP's score and partition, stay the same length,
      end at the current partition, and strictly improve. */
  predicate Traced(A: Matrix, gcp: (seq<seq<int>>, real), r: Run)
    requires IsSquare(A, |A|)
  {
    |r.modularityTrace| == |r.communitiesTrace| >= 1
    && r.modularityTrace[0] == gcp.1 && r.communitiesTrace[0] == gcp.0
    && r.communitiesTrace[|r.communitiesTrace| - 1] == r.communities
    && Improving(A, r.communitiesTrace)
  }

  lemma IgTraced(A: Matrix, beta: real, order: seq<int>, shuffles: seq<seq<int>>, k: nat)
    requires IsSquare(A, |A|) && Nonnegative(A) && |A| >= 1 && 0.0 <= beta <= 1.0
    requires IsOrder(order, |A|)
    requires k <= |shuffles| && forall i :: 0 <= i < |shuffles| ==> IsOrder(shuffles[i], |A|)
    ensures Traced(A, GcpFrom(Py, A, order, |A|), IgFrom(A, beta, order, shuffles, k))
  {
    var gcp := GcpFrom(Py, A, order, |A|);
    for j := 0 to k
      invariant Traced(A, gcp, IgFrom(A, beta, order, shuffles, j))
    {
      IgTracedStep(A, beta, order, shuffles, j, gcp);
    }
  }

  lemma IgTracedStep(A: Matrix, beta: real, order: seq<int>, shuffles: seq<seq<int>>, j: nat, gcp: (seq<seq<int>>, real))
    requires IsSquare(A, |A|) && Nonnegative(A) && |A| >= 1 && 0.0 <= beta <= 1.0
    requires IsOrder(order, |A|)
    requires j < |shuffles| && forall i :: 0 <= i < |shuffles| ==> IsOrder(shuffles[i], |A|)
    requires Traced(A, gcp, IgFrom(A, beta, order, shuffles, j))
    ensures Traced(A, gcp, IgFrom(A, beta, order, shuffles, j + 1))
  {
    var r := IgFrom(A, beta, order, shuffles, j);
    assert IgFrom(A, beta, order, shuffles, j + 1) == IgStep(A, beta, r, shuffles[j]);
    var r' := IgStep(A, beta, r, shuffles[j]);
    if r' != r {
      var t := r'.communitiesTrace;
      assert t[..|t| - 1] == r.communitiesTrace;
      forall i | 0 <= i < |t| - 1 ensures ModularityPyOf(A, t[i]) < ModularityPyOf(A, t[i + 1]) {
        if i < |t| - 2 {
          assert t[i] == r.communitiesTrace[i] && t[i + 1] == r.communitiesTrace[i + 1];
        }
      }
    }
  }

  /** IG: GCP, then one iteration per shuffle; returns the partition and
      the traces of accepted scores and partitions. */
  method IG(A: Matrix, beta: real, order: seq<int>, shuffles: seq<seq<int>>)
    returns (communities: seq<seq<int>>, modularityTrace: seq<real>, communitiesTrace: seq<seq<seq<int>>>)
    requires IsSquare(A, |A|) && Nonnegative(A) && |A| >= 1 && 0.0 <= beta <= 1.0
    requires IsOrder(order, |A|)
    requires forall i :: 0 <= i < |shuffles| ==> IsOrder(shuffles[i], |A|)
    ensures Run(communities, modularityTrace, communitiesTrace) == IgFrom(A, beta, order, shuffles, |shuffles|)
    ensures IsPartition(communities, |A|)
    ensures Traced(A, GcpFrom(Py, A, order, |A|), Run(communities, modularityTrace, communitiesTrace))
  {
    var mod;
    communities, mod := GCP(Py, A, order);
    modularityTrace := [mod];
    communitiesTrace := [communities];
    for i := 0 to |shuffles|
      invariant Run(communities, modularityTrace, communitiesTrace) == IgFrom(A, beta, order, shuffles, i)
    {
      var run := Iterate(A, beta, Run(communities, modularityTrace, communitiesTrace), shuffles[i]);
      communities, modularityTrace, communitiesTrace := run.communities, run.modularityTrace, run.communitiesTrace;
    }
    IgTraced(A, beta, order, shuffles, |shuffles|);
  }

  /** The body of IG's loop. */
  method Iterate(A: Matrix, beta: real, run: Run, shuffled: seq<int>) returns (next: Run)
    requires IsSquare(A, |A|) && 0.0 <= beta <= 1.0
    requires IsPartition(run.communities, |A|) && IsOrder(shuffled, |A|)
    ensures next == IgStep(A, beta, run, shuffled)
  {
    var rebuilt, mod := Rebuild(A, beta, run.communities, shuffled);
    PartitionInRange(rebuilt, |A|);
    PartitionInRange(run.communities, |A|);
    var q1 := ModularityPy(A, rebuilt);
    var q0 := ModularityPy(A, run.communities);
    if q1 > q0 {
      next := Run(rebuilt, run.modularityTrace + [mod], run.communitiesTrace + [rebuilt]);
    } else {
      next := run;
    }
  }

  method Rebuild(A: Matrix, beta: real, communities: seq<seq<int>>, shuffled: seq<int>)
    returns (rebuilt: seq<seq<int>>, mod: real)
    requires IsSquare(A, |A|) && 0.0 <= beta <= 1.0
    requires IsPartition(communities, |A|) && IsOrder(shuffled, |A|)
    ensures (rebuilt, mod) == Rebuilt(A, beta, communities, shuffled)
  {
    var removedNodes, filtered := Destruct(|A|, communities, beta, shuffled);
    RemovedInRange(shuffled, |A|, |removedNodes|);
    PartitionInRange(communities, |A|);
    FilterInRange(communities, removedNodes, |A|);
    rebuilt, mod := Reconstruct(A, filtered, removedNodes);
  }
}
