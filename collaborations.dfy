/** The student-graph generator: teams become pairwise collaborations
    (`_generate_individuals_binary_collaborations`), optionally restricted to
    a constraint list, and then a binary graph or a graph whose edge weights
    count repeated collaborations (`_generate_weighted_collaboration`),
    selected by `generate_graph`'s mode. */
module Collaborations {
  import opened Common
  import Pairs

  type Member = string

  /** The members a list names. */
  function Elems(s: seq<Member>): (r: set<Member>)
    ensures forall m :: m in r <==> m in s
  {
    set m | m in s
  }

  /** Every team's binary collaborations, team after team. */
  function TeamPairs(teams: seq<seq<Member>>): seq<(Member, Member)>
  {
    if teams == [] then []
    else TeamPairs(teams[..|teams| - 1]) + Pairs.Combinations(teams[|teams| - 1])
  }

  /** Everybody listed by some team. */
  function AllMembers(teams: seq<seq<Member>>): set<Member>
  {
    if teams == [] then {} else AllMembers(teams[..|teams| - 1]) + Elems(teams[|teams| - 1])
  }

  /** The pairs whose two members both appear in `constraints`, in order. */
  function KeepPairs(pairs: seq<(Member, Member)>, constraints: seq<Member>): seq<(Member, Member)>
  {
    if pairs == [] then []
    else
      var p := pairs[|pairs| - 1];
      KeepPairs(pairs[..|pairs| - 1], constraints)
        + (if p.0 in constraints && p.1 in constraints then [p] else [])
  }

  /** The individuals returned: all members, or only constrained ones. */
  function Individuals(teams: seq<seq<Member>>, constraints: seq<Member>): set<Member>
  {
    if |constraints| > 0 then AllMembers(teams) * Elems(constraints) else AllMembers(teams)
  }

  /** The collaborations returned: all team pairs, or only constrained ones. */
  function Collaborations(teams: seq<seq<Member>>, constraints: seq<Member>): seq<(Member, Member)>
  {
    if |constraints| > 0 then KeepPairs(TeamPairs(teams), constraints) else TeamPairs(teams)
  }

  /** Each collaboration as a dictionary item of weight 1. */
  function Unit(pairs: seq<(Member, Member)>): (items: seq<((Member, Member), int)>)
    ensures |items| == |pairs|
  {
    seq(|pairs|, t requires 0 <= t < |pairs| => (pairs[t], 1))
  }

  /** The graph handed to the graph library in binary mode. */
  datatype Graph = Graph(nodes: set<Member>, edges: seq<(Member, Member)>)

  /** The graph handed to the graph library in weighted mode: one
      `(a, b, weight)` edge per dictionary key, in insertion order. */
  datatype WeightedGraph = WeightedGraph(nodes: set<Member>, edges: seq<(Member, Member, int)>)

  function BinaryGraphOf(teams: seq<seq<Member>>, constraints: seq<Member>): Graph
  {
    Graph(Individuals(teams, constraints), Collaborations(teams, constraints))
  }

  function WeightedEdges(items: seq<((Member, Member), int)>): seq<(Member, Member, int)>
  {
    var keys := Pairs.FirstSeenKeys(items);
    seq(|keys|, t requires 0 <= t < |keys| => (keys[t].0, keys[t].1, Pairs.PairWeight(items, keys[t])))
  }

  function WeightedGraphOf(teams: seq<seq<Member>>, constraints: seq<Member>): WeightedGraph
  {
    WeightedGraph(Individuals(teams, constraints), WeightedEdges(Unit(Collaborations(teams, constraints))))
  }

  // ---------------------------------------------------------------------
  // Properties

  lemma {:induction false} TeamPairsMember(teams: seq<seq<Member>>, p: (Member, Member))
    ensures p in TeamPairs(teams) <==>
      exists t, a, b :: 0 <= t < |teams| && 0 <= a < b < |teams[t]| && p == (teams[t][a], teams[t][b])
  {
    if teams != [] {
      var init, last := teams[..|teams| - 1], teams[|teams| - 1];
      TeamPairsMember(init, p);
      Pairs.CombinationsMember(last, p);
      if p in TeamPairs(teams) && p !in Pairs.Combinations(last) {
        var t, a, b :| 0 <= t < |init| && 0 <= a < b < |init[t]| && p == (init[t][a], init[t][b]);
        assert init[t] == teams[t];
      }
      if exists t, a, b :: 0 <= t < |teams| && 0 <= a < b < |teams[t]| && p == (teams[t][a], teams[t][b]) {
        var t, a, b :| 0 <= t < |teams| && 0 <= a < b < |teams[t]| && p == (teams[t][a], teams[t][b]);
        if t < |teams| - 1 {
          assert init[t] == teams[t];
        }
      }
    }
  }

  /** The number of pairs `_generate_binary_collaborations` yields for each team. */
  function PairCount(teams: seq<seq<Member>>): nat
  {
    if teams == [] then 0
    else
      var n := |teams[|teams| - 1]|;
      PairCount(teams[..|teams| - 1]) + n * (n - 1) / 2
  }

  /** A team of `n` contributes exactly `n (n - 1) / 2` pairs. */
  lemma {:induction false} TeamPairsLength(teams: seq<seq<Member>>)
    ensures |TeamPairs(teams)| == PairCount(teams)
  {
    if teams != [] {
      TeamPairsLength(teams[..|teams| - 1]);
      Pairs.CombinationsLength(teams[|teams| - 1]);
    }
  }

  lemma {:induction false} AllMembersMember(teams: seq<seq<Member>>, m: Member)
    ensures m in AllMembers(teams) <==> exists t :: 0 <= t < |teams| && m in teams[t]
  {
    if teams != [] {
      var init := teams[..|teams| - 1];
      AllMembersMember(init, m);
      if m in AllMembers(init) {
        var t :| 0 <= t < |init| && m in init[t];
        assert teams[t] == init[t];
      }
      if exists t :: 0 <= t < |teams| && m in teams[t] {
        var t :| 0 <= t < |teams| && m in teams[t];
        if t < |teams| - 1 {
          assert init[t] == teams[t];
        }
      }
    }
  }

  /** A kept pair is an input pair with both members constrained. */
  lemma {:induction false} KeepPairsMember(pairs: seq<(Member, Member)>, constraints: seq<Member>, p: (Member, Member))
    ensures p in KeepPairs(pairs, constraints) <==> p in pairs && p.0 in constraints && p.1 in constraints
  {
    if pairs != [] {
      KeepPairsMember(pairs[..|pairs| - 1], constraints, p);
      assert pairs == pairs[..|pairs| - 1] + [pairs[|pairs| - 1]];
    }
  }

  /** Both members of every returned collaboration are returned individuals,
      so the graph library adds no node of its own. */
  lemma EndpointsAreIndividuals(teams: seq<seq<Member>>, constraints: seq<Member>, p: (Member, Member))
    requires p in Collaborations(teams, constraints)
    ensures p.0 in Individuals(teams, constraints) && p.1 in Individuals(teams, constraints)
  {
    if |constraints| > 0 {
      KeepPairsMember(TeamPairs(teams), constraints, p);
    }
    TeamPairsMember(teams, p);
    var t, a, b :| 0 <= t < |teams| && 0 <= a < b < |teams[t]| && p == (teams[t][a], teams[t][b]);
    AllMembersMember(teams, p.0);
    AllMembersMember(teams, p.1);
  }

  /** Sum of the edge weights. */
  function WeightSum(edges: seq<(Member, Member, int)>): int
  {
    if edges == [] then 0 else WeightSum(edges[..|edges| - 1]) + edges[|edges| - 1].2
  }

  lemma {:induction false} UnitTotal(pairs: seq<(Member, Member)>)
    ensures Pairs.Total(Unit(pairs)) == |pairs|
  {
    if pairs != [] {
      UnitTotal(pairs[..|pairs| - 1]);
      assert Unit(pairs)[..|pairs| - 1] == Unit(pairs[..|pairs| - 1]);
    }
  }

  lemma {:induction false} WeightSumIsKeyTotal(items: seq<((Member, Member), int)>, keys: seq<(Member, Member)>)
    ensures WeightSum(seq(|keys|, t requires 0 <= t < |keys| => (keys[t].0, keys[t].1, Pairs.PairWeight(items, keys[t]))))
      == Pairs.KeyTotal(items, keys)
  {
    if keys != [] {
      var init := keys[..|keys| - 1];
      WeightSumIsKeyTotal(items, init);
      var e := seq(|keys|, t requires 0 <= t < |keys| => (keys[t].0, keys[t].1, Pairs.PairWeight(items, keys[t])));
      assert e[..|keys| - 1] == seq(|init|, t requires 0 <= t < |init| => (init[t].0, init[t].1, Pairs.PairWeight(items, init[t])));
    }
  }

  /** The weighted edges: each unordered pair once, every weight at least 1,
      and the weights add up to the number of collaborations. */
  lemma WeightedEdgesSpec(pairs: seq<(Member, Member)>)
    ensures var edges := WeightedEdges(Unit(pairs));
      && WeightSum(edges) == |pairs|
      && (forall i :: 0 <= i < |edges| ==> edges[i].2 >= 1)
      && Pairs.UnorderedDistinct(Pairs.FirstSeenKeys(Unit(pairs)))
      && (forall t :: 0 <= t < |pairs| ==> Pairs.HasMatch(Pairs.FirstSeenKeys(Unit(pairs)), pairs[t]))
  {
    var items := Unit(pairs);
    var keys := Pairs.FirstSeenKeys(items);
    WeightSumIsKeyTotal(items, keys);
    Pairs.CoalesceConservesWeight(items);
    UnitTotal(pairs);
    Pairs.KeysWeighAtLeastOne(items);
    Pairs.FirstSeenKeysDistinct(items);
    forall t | 0 <= t < |pairs| ensures Pairs.HasMatch(keys, pairs[t]) {
      Pairs.FirstSeenKeysCover(items, t);
    }
  }

  // ---------------------------------------------------------------------
  // The generator object

  class StudentGraphGenerator {
    var collaborationsList: seq<seq<Member>>
    var constraints: seq<Member>
    var binaryGraph: Option<Graph>
    var weightedGraph: Option<WeightedGraph>

    /** The teams are those the data-source reader would have collected. */
    constructor (teams: seq<seq<Member>>)
      ensures collaborationsList == teams && constraints == []
      ensures binaryGraph == None && weightedGraph == None
    {
      collaborationsList := teams;
      constraints := [];
      binaryGraph := None;
      weightedGraph := None;
    }

    /** `consider_constraint`. */
    method ConsiderConstraint(memberList: seq<Member>)
      modifies this
      ensures constraints == memberList
      ensures collaborationsList == old(collaborationsList)
      ensures binaryGraph == old(binaryGraph) && weightedGraph == old(weightedGraph)
    {
      constraints := memberList;
    }

    /** `_generate_individuals_binary_collaborations`. */
    method IndividualsAndCollaborations() returns (individuals: set<Member>, collaborations: seq<(Member, Member)>)
      ensures individuals == Individuals(collaborationsList, constraints)
      ensures collaborations == Collaborations(collaborationsList, constraints)
    {
      var teams := collaborationsList;
      individuals := {};
      collaborations := [];
      var i := 0;
      while i < |teams|
        invariant 0 <= i <= |teams|
        invariant individuals == AllMembers(teams[..i])
        invariant collaborations == TeamPairs(teams[..i])
      {
        var team := teams[i];
        assert teams[..i + 1][..i] == teams[..i];
        var t := 0;
        while t < |team|
          invariant 0 <= t <= |team|
          invariant individuals == AllMembers(teams[..i]) + Elems(team[..t])
        {
          assert Elems(team[..t + 1]) == Elems(team[..t]) + {team[t]};
          individuals := individuals + {team[t]};
          t := t + 1;
        }
        assert team[..t] == team;
        var current := Pairs.BinaryCollaborations(team);
        collaborations := collaborations + current;
        i := i + 1;
      }
      assert teams[..i] == teams;
      if |constraints| > 0 {
        var kept: set<Member> := {};
        var rest := individuals;
        while rest != {}
          invariant rest <= individuals
          invariant kept == (individuals - rest) * Elems(constraints)
          decreases rest
        {
          ghost var someone := Witness(rest);
          var ind :| ind in rest;
          if ind in constraints {
            kept := kept + {ind};
          }
          rest := rest - {ind};
        }
        var keptPairs: seq<(Member, Member)> := [];
        var c := 0;
        while c < |collaborations|
          invariant 0 <= c <= |collaborations|
          invariant keptPairs == KeepPairs(collaborations[..c], constraints)
        {
          var col := collaborations[c];
          assert collaborations[..c + 1][..c] == collaborations[..c];
          if col.0 in constraints && col.1 in constraints {
            keptPairs := keptPairs + [col];
          }
          c := c + 1;
        }
        assert collaborations[..c] == collaborations;
        individuals := kept;
        collaborations := keptPairs;
      }
    }

    /** `_generate_weighted_collaboration` followed by the edge list built
        from the dictionary items. */
    static method WeightedCollaboration(collaborations: seq<(Member, Member)>) returns (edges: seq<(Member, Member, int)>)
      ensures edges == WeightedEdges(Unit(collaborations))
    {
      var keys, weight := Pairs.Coalesce(Unit(collaborations));
      edges := [];
      var t := 0;
      while t < |keys|
        invariant 0 <= t <= |keys|
        invariant edges == seq(t, s requires 0 <= s < t =>
          (keys[s].0, keys[s].1, Pairs.PairWeight(Unit(collaborations), keys[s])))
      {
        edges := edges + [(keys[t].0, keys[t].1, weight[keys[t]])];
        t := t + 1;
      }
    }

    /** `generate_graph`: the mode must be "binary" or "weighted" (otherwise
        the assertion fails and nothing is generated); the chosen graph is
        rebuilt from the current teams and constraints. */
    method GenerateGraph(mode: string) returns (ok: bool)
      modifies this
      ensures ok <==> mode == "binary" || mode == "weighted"
      ensures collaborationsList == old(collaborationsList) && constraints == old(constraints)
      ensures binaryGraph == if mode == "binary" then Some(BinaryGraphOf(collaborationsList, constraints)) else old(binaryGraph)
      ensures weightedGraph == if mode == "weighted" then Some(WeightedGraphOf(collaborationsList, constraints)) else old(weightedGraph)
    {
      if mode != "binary" && mode != "weighted" {
        return false;
      }
      var individuals, collaborations := IndividualsAndCollaborations();
      if mode == "binary" {
        binaryGraph := Some(Graph(individuals, collaborations));
      } else {
        var edges := WeightedCollaboration(collaborations);
        weightedGraph := Some(WeightedGraph(individuals, edges));
      }
      ok := true;
    }
  }
}
