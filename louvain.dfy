/** The multi-level Louvain machine: one level graph whose nodes carry a
    community label and the list of original people they stand for; a sweep
    moves each node, in node order, to its best neighbouring community when
    the gain is positive; a reduction collapses every community into one node
    of the next level; the machine repeats while the node count shrinks. */
module Louvain {
  import opened Common
  import Pairs

  /** An edge of a level: its endpoint pair and its weight. */
  type Edge = ((int, int), int)

  /** One level graph: its nodes in insertion order, the `community` and
      `people_nodes` attribute of each node, and its weighted edges. */
  datatype Level = Level(nodes: seq<int>, community: map<int, int>, people: map<int, seq<int>>, edges: seq<Edge>)

  /** A candidate move of `node` from `source` to `destination`. */
  datatype Action = Action(node: int, source: int, destination: int, value: real)

  /** Every edge endpoint carries a community label. */
  predicate EdgesLabelled(edges: seq<Edge>, community: map<int, int>)
  {
    forall t :: 0 <= t < |edges| ==> edges[t].0.0 in community && edges[t].0.1 in community
  }

  function EdgeKeys(edges: seq<Edge>): (keys: seq<(int, int)>)
    ensures |keys| == |edges| && forall t :: 0 <= t < |edges| ==> keys[t] == edges[t].0
  {
    seq(|edges|, t requires 0 <= t < |edges| => edges[t].0)
  }

  /** The shape every level keeps: distinct nodes, each with a label and a
      people list; every label is a node of the level; every edge joins two
      nodes, weighs at least 1, and no unordered pair has two edges. */
  ghost predicate WellFormed(g: Level)
  {
    && Distinct(g.nodes)
    && Attributed(g)
    && (forall v {:trigger g.community[v]} :: v in g.community ==> g.community[v] in g.nodes)
    && (forall t :: 0 <= t < |g.edges| ==> g.edges[t].0.0 in g.nodes && g.edges[t].0.1 in g.nodes && g.edges[t].1 >= 1)
    && EdgesLabelled(g.edges, g.community)
    && Pairs.UnorderedDistinct(EdgeKeys(g.edges))
  }

  /** Every node carries both attributes. */
  predicate Attributed(g: Level)
  {
    forall i :: 0 <= i < |g.nodes| ==> g.nodes[i] in g.community && g.nodes[i] in g.people
  }

  /** The people lists of `keys`, concatenated in order. */
  function Collect(keys: seq<int>, dict: map<int, seq<int>>): seq<int>
    requires forall i :: 0 <= i < |keys| ==> keys[i] in dict
  {
    if keys == [] then [] else Collect(keys[..|keys| - 1], dict) + dict[keys[|keys| - 1]]
  }

  /** All original people a level stands for. */
  function People(g: Level): seq<int>
    requires Attributed(g)
  {
    Collect(g.nodes, g.people)
  }

  // ---------------------------------------------------------------------
  // The modularity gain of moving a node

  /** `tot`: twice the weight of the edges with both ends labelled `c`. */
  function Tot(edges: seq<Edge>, community: map<int, int>, c: int): int
    requires EdgesLabelled(edges, community)
  {
    if edges == [] then 0
    else
      var e := edges[|edges| - 1];
      Tot(edges[..|edges| - 1], community, c)
        + (if community[e.0.0] == c && community[e.0.1] == c then 2 * e.1 else 0)
  }

  /** `ki_in`: weight of the edges joining `v` to a node labelled `c`. */
  function KiIn(edges: seq<Edge>, community: map<int, int>, v: int, c: int): int
    requires EdgesLabelled(edges, community)
  {
    if edges == [] then 0
    else
      var e := edges[|edges| - 1];
      KiIn(edges[..|edges| - 1], community, v, c)
        + (if (e.0.0 == v && community[e.0.1] == c) || (e.0.1 == v && community[e.0.0] == c) then e.1 else 0)
  }

  /** `ki`: weight of the edges touching `v`, a self-loop once. */
  function Ki(edges: seq<Edge>, v: int): int
  {
    if edges == [] then 0
    else
      var e := edges[|edges| - 1];
      Ki(edges[..|edges| - 1], v) + (if e.0.0 == v || e.0.1 == v then e.1 else 0)
  }

  /** `compute_delta_q`: `ki_in / m - tot * ki / (2 m^2)`. */
  function DeltaQ(edges: seq<Edge>, community: map<int, int>, m: int, v: int, c: int): real
    requires EdgesLabelled(edges, community) && m > 0
  {
    (KiIn(edges, community, v, c) as real) / (m as real)
      - ((Tot(edges, community, c) * Ki(edges, v)) as real) / ((2 * m * m) as real)
  }

  /** The labels of the nodes adjacent to `v` (itself too, through a self-loop). */
  function NeighbourLabels(edges: seq<Edge>, community: map<int, int>, v: int): set<int>
    requires EdgesLabelled(edges, community)
  {
    if edges == [] then {}
    else
      var e := edges[|edges| - 1];
      NeighbourLabels(edges[..|edges| - 1], community, v)
        + (if e.0.0 == v then {community[e.0.1]} else {})
        + (if e.0.1 == v then {community[e.0.0]} else {})
  }

  /** With nonnegative weights, `0 <= ki_in <= ki <= m` and `0 <= tot <= 2 m`. */
  lemma {:induction false} GainTerms(edges: seq<Edge>, community: map<int, int>, v: int, c: int)
    requires EdgesLabelled(edges, community)
    requires forall t :: 0 <= t < |edges| ==> edges[t].1 >= 0
    ensures 0 <= KiIn(edges, community, v, c) <= Ki(edges, v) <= Pairs.Total(edges)
    ensures 0 <= Tot(edges, community, c) <= 2 * Pairs.Total(edges)
  {
    if edges != [] {
      GainTerms(edges[..|edges| - 1], community, v, c);
    }
  }

  lemma MulLe(a: int, b: int, c: int, d: int)
    requires 0 <= a <= c && 0 <= b <= d
    ensures a * b <= c * d
  {
    assert a * b <= c * b;
    assert c * b <= c * d;
  }

  lemma RatioUnit(x: real, y: real)
    requires 0.0 <= x <= y && y > 0.0
    ensures 0.0 <= x / y <= 1.0
  {
  }

  /** When `m` is the total weight, the gain of any move lies in `[-1, 1]`. */
  lemma GainBounds(edges: seq<Edge>, community: map<int, int>, m: int, v: int, c: int)
    requires EdgesLabelled(edges, community)
    requires forall t :: 0 <= t < |edges| ==> edges[t].1 >= 0
    requires m == Pairs.Total(edges) && m > 0
    ensures -1.0 <= DeltaQ(edges, community, m, v, c) <= 1.0
  {
    GainTerms(edges, community, v, c);
    GainRange(KiIn(edges, community, v, c), Tot(edges, community, c), Ki(edges, v), m);
  }

  lemma GainRange(kiIn: int, tot: int, ki: int, m: int)
    requires m > 0 && 0 <= kiIn <= m && 0 <= tot <= 2 * m && 0 <= ki <= m
    ensures -1.0 <= kiIn as real / m as real - (tot * ki) as real / (2 * m * m) as real <= 1.0
  {
    MulLe(tot, ki, 2 * m, m);
    assert 2 * m * m == (2 * m) * m;
    RatioUnit(kiIn as real, m as real);
    RatioUnit((tot * ki) as real, (2 * m * m) as real);
  }

  /** A neighbouring label brings at least one unit of `ki_in`, so the level
      has weight and the gain never divides by zero. */
  lemma {:induction false} CandidateHasWeight(edges: seq<Edge>, community: map<int, int>, v: int, c: int)
    requires EdgesLabelled(edges, community)
    requires forall t :: 0 <= t < |edges| ==> edges[t].1 >= 1
    requires c in NeighbourLabels(edges, community, v)
    ensures KiIn(edges, community, v, c) >= 1 && Pairs.Total(edges) >= 1
  {
    var init := edges[..|edges| - 1];
    GainTerms(init, community, v, c);
    GainTerms(edges, community, v, c);
    if c in NeighbourLabels(init, community, v) {
      CandidateHasWeight(init, community, v, c);
    }
  }

  /** Neighbouring labels are labels some node carries. */
  lemma {:induction false} NeighbourLabelsAreLabels(edges: seq<Edge>, community: map<int, int>, v: int, nodes: seq<int>)
    requires EdgesLabelled(edges, community)
    requires forall u :: u in community ==> community[u] in nodes
    ensures forall c :: c in NeighbourLabels(edges, community, v) ==> c in nodes
  {
    if edges != [] {
      NeighbourLabelsAreLabels(edges[..|edges| - 1], community, v, nodes);
    }
  }

  /** A label is a candidate iff some edge joins `v` to a node carrying it. */
  lemma {:induction false} NeighbourLabelsMember(edges: seq<Edge>, community: map<int, int>, v: int, c: int)
    requires EdgesLabelled(edges, community)
    ensures c in NeighbourLabels(edges, community, v) <==>
      exists t :: 0 <= t < |edges| &&
        ((edges[t].0.0 == v && community[edges[t].0.1] == c) || (edges[t].0.1 == v && community[edges[t].0.0] == c))
  {
    if edges != [] {
      var init := edges[..|edges| - 1];
      NeighbourLabelsMember(init, community, v, c);
      if exists t :: (0 <= t < |init| &&
        ((init[t].0.0 == v && community[init[t].0.1] == c) || (init[t].0.1 == v && community[init[t].0.0] == c)))
      {
        var t :| 0 <= t < |init| &&
          ((init[t].0.0 == v && community[init[t].0.1] == c) || (init[t].0.1 == v && community[init[t].0.0] == c));
        assert edges[t] == init[t];
      }
    }
  }

  // ---------------------------------------------------------------------
  // One sweep

  function Destinations(actions: seq<Action>): (ds: seq<int>)
    ensures |ds| == |actions| && forall t :: 0 <= t < |actions| ==> ds[t] == actions[t].destination
  {
    seq(|actions|, t requires 0 <= t < |actions| => actions[t].destination)
  }

  /** `actions` holds one move of `v` per distinct neighbouring label, from
      its current label, valued by the gain. */
  predicate ActionsFor(g: Level, m: int, v: int, actions: seq<Action>)
    requires EdgesLabelled(g.edges, g.community) && v in g.community
  {
    && IsListing(Destinations(actions), NeighbourLabels(g.edges, g.community, v))
    && forall t :: 0 <= t < |actions| ==>
         m > 0 && actions[t] == Action(v, g.community[v], actions[t].destination,
                                       DeltaQ(g.edges, g.community, m, v, actions[t].destination))
  }

  /** `k` is the first index of a largest value, as Python's `max` picks. */
  predicate FirstMax(actions: seq<Action>, k: int)
  {
    && 0 <= k < |actions|
    && (forall t :: 0 <= t < |actions| ==> actions[t].value <= actions[k].value)
    && (forall t :: 0 <= t < k ==> actions[t].value < actions[k].value)
  }

  /** One visit of node `v` in a sweep turns level `g` into `g2`: without a
      neighbour nothing is recorded or changed; otherwise the actions and the
      first best one are recorded, and `v` takes the best label exactly when
      its gain is strictly positive. Nothing but `v`'s label changes. */
  ghost predicate SweepStep(g: Level, g2: Level, m: int, v: int, entry: Option<(seq<Action>, Action)>, moved: bool)
    requires WellFormed(g) && v in g.nodes
  {
    && g2.nodes == g.nodes && g2.people == g.people && g2.edges == g.edges
    && if NeighbourLabels(g.edges, g.community, v) == {} then
         entry == None && !moved && g2.community == g.community
       else
         && entry.Some?
         && ActionsFor(g, m, v, entry.value.0)
         && (exists k :: FirstMax(entry.value.0, k) && entry.value.1 == entry.value.0[k])
         && moved == (entry.value.1.value > 0.0)
         && g2.community == (if moved then g.community[v := entry.value.1.destination] else g.community)
  }

  /** A visit with at least one action records the first best one and
      moves `v` there exactly when the gain is positive. */
  lemma VisitWithActions(g: Level, m: int, v: int, actions: seq<Action>, k: int)
    requires WellFormed(g) && v in g.nodes
    requires ActionsFor(g, m, v, actions) && FirstMax(actions, k)
    ensures actions[k].destination in g.nodes
    ensures var moved := actions[k].value > 0.0;
      SweepStep(g, g.(community := if moved then g.community[v := actions[k].destination] else g.community),
                m, v, Some((actions, actions[k])), moved)
  {
    var ds := Destinations(actions);
    assert ds[k] in (set x | x in ds);
    NeighbourLabelsAreLabels(g.edges, g.community, v, g.nodes);
  }

  /** A visit without actions records and changes nothing. */
  lemma VisitWithoutActions(g: Level, m: int, v: int, actions: seq<Action>)
    requires WellFormed(g) && v in g.nodes
    requires ActionsFor(g, m, v, actions) && actions == []
    ensures SweepStep(g, g, m, v, None, false)
  {
    assert Destinations(actions) == [];
  }

  /** Visit `j` of a sweep over `order`: level `states[j]` is well formed
      and becomes `states[j + 1]` as `SweepStep` says. */
  ghost predicate StepAt(states: seq<Level>, entries: seq<Option<(seq<Action>, Action)>>, moves: seq<bool>,
                         m: int, order: seq<int>, j: int)
  {
    && 0 <= j < |entries| && j < |moves| && j + 1 < |states| && j < |order|
    && WellFormed(states[j]) && states[j].nodes == order
    && SweepStep(states[j], states[j + 1], m, order[j], entries[j], moves[j])
  }

  /** `states` is a sweep from `start` to `final`: one step per node of
      `start`, in node order. */
  ghost predicate SweepTrace(start: Level, states: seq<Level>, entries: seq<Option<(seq<Action>, Action)>>,
                             moves: seq<bool>, m: int, final: Level)
  {
    && |states| == |start.nodes| + 1 && states[0] == start && final == states[|states| - 1]
    && |entries| == |start.nodes| && |moves| == |start.nodes|
    && forall i :: 0 <= i < |entries| ==> StepAt(states, entries, moves, m, start.nodes, i)
  }

  /** A sweep in which no visit moved its node leaves the level as it was. */
  lemma {:induction false} NoMoveKeepsLevel(states: seq<Level>, entries: seq<Option<(seq<Action>, Action)>>,
                                            moves: seq<bool>, m: int, order: seq<int>, k: nat)
    requires k < |states| && k <= |moves| && !(true in moves)
    requires forall j :: 0 <= j < k ==> StepAt(states, entries, moves, m, order, j)
    ensures states[k] == states[0]
  {
    if k > 0 {
      NoMoveKeepsLevel(states, entries, moves, m, order, k - 1);
      assert StepAt(states, entries, moves, m, order, k - 1);
      assert !moves[k - 1];
    }
  }

  /** A trace of visits extends by one more visit. */
  lemma ExtendTrace(states: seq<Level>, entries: seq<Option<(seq<Action>, Action)>>, moves: seq<bool>,
                    m: int, order: seq<int>, g2: Level, entry: Option<(seq<Action>, Action)>, moved: bool)
    requires |entries| == |moves| && |states| == |entries| + 1 && |entries| < |order|
    requires forall j :: 0 <= j < |entries| ==> StepAt(states, entries, moves, m, order, j)
    requires WellFormed(states[|entries|]) && states[|entries|].nodes == order
    requires SweepStep(states[|entries|], g2, m, order[|entries|], entry, moved)
    ensures forall j :: 0 <= j <= |entries| ==> StepAt(states + [g2], entries + [entry], moves + [moved], m, order, j)
  {
    var states', entries', moves' := states + [g2], entries + [entry], moves + [moved];
    forall j | 0 <= j <= |entries|
      ensures StepAt(states', entries', moves', m, order, j)
    {
      if j < |entries| {
        assert StepAt(states, entries, moves, m, order, j);
        assert states'[j] == states[j] && states'[j + 1] == states[j + 1];
        assert entries'[j] == entries[j] && moves'[j] == moves[j];
      } else {
        assert states'[j] == states[j] && states'[j + 1] == g2;
      }
    }
  }

  /** The recorded entries, leaving out the visits that recorded nothing. */
  function Somes<T>(entries: seq<Option<T>>): seq<T>
  {
    if entries == [] then []
    else Somes(entries[..|entries| - 1]) + (if entries[|entries| - 1].Some? then [entries[|entries| - 1].value] else [])
  }

  lemma SomesSnoc<T>(entries: seq<Option<T>>, e: Option<T>)
    ensures Somes(entries + [e]) == Somes(entries) + (if e.Some? then [e.value] else [])
  {
    assert (entries + [e])[..|entries|] == entries;
  }

  /** `max(actions, key=value)`: the first action with the largest value. */
  method FirstMaxIndex(actions: seq<Action>) returns (k: nat)
    requires |actions| > 0
    ensures FirstMax(actions, k)
  {
    k := 0;
    for t := 1 to |actions|
      invariant FirstMax(actions[..t], k)
    {
      if actions[t].value > actions[k].value {
        k := t;
      }
    }
    assert actions[..|actions|] == actions;
  }

  // ---------------------------------------------------------------------
  // Reduction

  /** The community dictionary after the first `k` nodes: the labels in
      first-occurrence order, and for each label its members' people lists
      concatenated in node order. */
  function Group(g: Level, k: nat): (r: (seq<int>, map<int, seq<int>>))
    requires k <= |g.nodes|
    requires Attributed(g)
    ensures Distinct(r.0) && |r.0| <= k
    ensures forall l {:trigger r.1[l]} :: l in r.1 ==> l in r.0
    ensures forall i :: 0 <= i < |r.0| ==> r.0[i] in r.1
  {
    if k == 0 then ([], map[])
    else
      var r := Group(g, k - 1);
      var v := g.nodes[k - 1];
      var l := g.community[v];
      if l in r.1 then (r.0, r.1[l := r.1[l] + g.people[v]])
      else (r.0 + [l], r.1[l := g.people[v]])
  }

  /** Each edge re-keyed by the labels of its endpoints. */
  function Relabel(edges: seq<Edge>, community: map<int, int>): (items: seq<Edge>)
    requires EdgesLabelled(edges, community)
    ensures |items| == |edges|
  {
    seq(|edges|, t requires 0 <= t < |edges| => ((community[edges[t].0.0], community[edges[t].0.1]), edges[t].1))
  }

  /** One edge per unordered pair of labels, carrying the summed weight. */
  function Coalesced(items: seq<Edge>): (edges: seq<Edge>)
  {
    var keys := Pairs.FirstSeenKeys(items);
    seq(|keys|, t requires 0 <= t < |keys| => (keys[t], Pairs.PairWeight(items, keys[t])))
  }

  function Identity(keys: seq<int>): (r: map<int, int>)
    ensures forall l :: l in r <==> l in keys
    ensures forall l :: l in r ==> r[l] == l
  {
    map l | l in keys :: l
  }

  /** `louvain_reduce`: the next level graph. */
  function Reduced(g: Level): Level
    requires WellFormed(g)
  {
    var r := Group(g, |g.nodes|);
    Level(r.0, Identity(r.0), r.1, Coalesced(Relabel(g.edges, g.community)))
  }

  /** `r` is the level `g` reduces to. */
  ghost predicate ReducesTo(g: Level, r: Level)
    requires WellFormed(g)
  {
    r == Reduced(g)
  }

  /** Reducing `g` merges some of its nodes. */
  ghost predicate Shrinks(g: Level)
    requires WellFormed(g)
  {
    |Reduced(g).nodes| < |g.nodes|
  }

  lemma {:induction false} CollectIgnores(keys: seq<int>, dict: map<int, seq<int>>, l: int, x: seq<int>)
    requires forall i :: 0 <= i < |keys| ==> keys[i] in dict
    requires l !in keys
    ensures Collect(keys, dict[l := x]) == Collect(keys, dict)
  {
    if keys != [] {
      CollectIgnores(keys[..|keys| - 1], dict, l, x);
    }
  }

  /** Appending to one label's list adds that much to the collected people. */
  lemma {:induction false} CollectUpdate(keys: seq<int>, dict: map<int, seq<int>>, l: int, x: seq<int>)
    requires forall i :: 0 <= i < |keys| ==> keys[i] in dict
    requires Distinct(keys) && l in keys
    ensures multiset(Collect(keys, dict[l := dict[l] + x])) == multiset(Collect(keys, dict)) + multiset(x)
  {
    var init := keys[..|keys| - 1];
    var last := keys[|keys| - 1];
    if last == l {
      assert l !in init;
      CollectIgnores(init, dict, l, dict[l] + x);
    } else {
      CollectUpdate(init, dict, l, x);
    }
  }

  /** The dictionary holds exactly the people of the first `k` nodes. */
  lemma {:induction false} GroupPeople(g: Level, k: nat)
    requires k <= |g.nodes|
    requires Attributed(g)
    ensures multiset(Collect(Group(g, k).0, Group(g, k).1)) == multiset(Collect(g.nodes[..k], g.people))
  {
    if k > 0 {
      GroupPeople(g, k - 1);
      GroupPeopleStep(g, k);
    }
  }

  /** The inductive step of `GroupPeople`: node `k - 1` either joins a
      known label or opens a new one. */
  lemma GroupPeopleStep(g: Level, k: nat)
    requires 0 < k <= |g.nodes|
    requires Attributed(g)
    requires multiset(Collect(Group(g, k - 1).0, Group(g, k - 1).1)) == multiset(Collect(g.nodes[..k - 1], g.people))
    ensures multiset(Collect(Group(g, k).0, Group(g, k).1)) == multiset(Collect(g.nodes[..k], g.people))
  {
    var r := Group(g, k - 1);
    var v := g.nodes[k - 1];
    var l := g.community[v];
    var p := g.people[v];
    CollectPrefix(g.nodes, g.people, k);
    GroupLast(g, k);
    var r' := Group(g, k);
    if l in r.1 {
      CollectUpdate(r.0, r.1, l, p);
      assert multiset(Collect(r'.0, r'.1)) == multiset(Collect(r.0, r.1)) + multiset(p);
    } else {
      CollectAdd(r.0, r.1, l, p);
      assert Collect(r'.0, r'.1) == Collect(r.0, r.1) + p;
    }
  }

  /** One more node either extends its label's list or opens a new label. */
  lemma GroupLast(g: Level, k: nat)
    requires 0 < k <= |g.nodes|
    requires Attributed(g)
    ensures var r := Group(g, k - 1);
      var l := g.community[g.nodes[k - 1]];
      var p := g.people[g.nodes[k - 1]];
      Group(g, k) == if l in r.1 then (r.0, r.1[l := r.1[l] + p]) else (r.0 + [l], r.1[l := p])
  {
  }

  /** A new label appended with its list adds exactly that list. */
  lemma CollectAdd(keys: seq<int>, dict: map<int, seq<int>>, l: int, x: seq<int>)
    requires forall i :: 0 <= i < |keys| ==> keys[i] in dict
    requires l !in dict
    ensures Collect(keys + [l], dict[l := x]) == Collect(keys, dict) + x
  {
    CollectIgnores(keys, dict, l, x);
    CollectSnoc(keys, l, dict[l := x]);
  }

  /** Collecting one more key of a list adds that key's people. */
  lemma CollectPrefix(keys: seq<int>, dict: map<int, seq<int>>, k: nat)
    requires 0 < k <= |keys|
    requires forall i :: 0 <= i < |keys| ==> keys[i] in dict
    ensures Collect(keys[..k], dict) == Collect(keys[..k - 1], dict) + dict[keys[k - 1]]
  {
    assert keys[..k][..k - 1] == keys[..k - 1];
  }

  lemma CollectSnoc(keys: seq<int>, l: int, dict: map<int, seq<int>>)
    requires forall i :: 0 <= i < |keys| ==> keys[i] in dict
    requires l in dict
    ensures Collect(keys + [l], dict) == Collect(keys, dict) + dict[l]
  {
    assert (keys + [l])[..|keys|] == keys;
  }

  /** Every label of the first `k` nodes is a key of the dictionary. */
  lemma {:induction false} GroupHasLabels(g: Level, k: nat)
    requires k <= |g.nodes|
    requires Attributed(g)
    ensures forall i :: 0 <= i < k ==> g.community[g.nodes[i]] in Group(g, k).0
  {
    if k > 0 {
      GroupHasLabels(g, k - 1);
    }
  }

  /** Every key of the dictionary is the label of one of the first `k` nodes. */
  lemma {:induction false} GroupKeysAreLabels(g: Level, k: nat)
    requires k <= |g.nodes|
    requires Attributed(g)
    ensures forall l :: l in Group(g, k).0 ==> exists i :: 0 <= i < k && g.community[g.nodes[i]] == l
  {
    if k > 0 {
      GroupKeysAreLabels(g, k - 1);
    }
  }

  lemma {:induction false} RelabelTotal(edges: seq<Edge>, community: map<int, int>)
    requires EdgesLabelled(edges, community)
    ensures Pairs.Total(Relabel(edges, community)) == Pairs.Total(edges)
  {
    if edges != [] {
      var init := edges[..|edges| - 1];
      RelabelTotal(init, community);
      assert Relabel(edges, community)[..|edges| - 1] == Relabel(init, community);
    }
  }

  lemma {:induction false} CoalescedTotal(items: seq<Edge>, keys: seq<(int, int)>)
    ensures Pairs.Total(seq(|keys|, t requires 0 <= t < |keys| => (keys[t], Pairs.PairWeight(items, keys[t]))))
      == Pairs.KeyTotal(items, keys)
  {
    if keys != [] {
      var init := keys[..|keys| - 1];
      CoalescedTotal(items, init);
      var e := seq(|keys|, t requires 0 <= t < |keys| => (keys[t], Pairs.PairWeight(items, keys[t])));
      assert e[..|keys| - 1] == seq(|init|, t requires 0 <= t < |init| => (init[t], Pairs.PairWeight(items, init[t])));
    }
  }

  /** Reduction conserves the total edge weight. */
  lemma ReducedWeight(g: Level)
    requires WellFormed(g)
    ensures Pairs.Total(Reduced(g).edges) == Pairs.Total(g.edges)
  {
    var items := Relabel(g.edges, g.community);
    RelabelTotal(g.edges, g.community);
    CoalescedTotal(items, Pairs.FirstSeenKeys(items));
    Pairs.CoalesceConservesWeight(items);
  }

  /** Reduction keeps the multiset of original people. */
  lemma ReducedPeople(g: Level)
    requires WellFormed(g)
    ensures multiset(People(Reduced(g))) == multiset(People(g))
  {
    GroupPeople(g, |g.nodes|);
    assert g.nodes[..|g.nodes|] == g.nodes;
  }

  /** The next level is well formed, its nodes are the distinct labels of the
      current level, each labelled by itself, and there are no more of them
      than current nodes. */
  lemma ReducedWellFormed(g: Level)
    requires WellFormed(g)
    ensures WellFormed(Reduced(g))
    ensures forall l :: l in Reduced(g).nodes <==> exists i :: 0 <= i < |g.nodes| && g.community[g.nodes[i]] == l
    ensures |Reduced(g).nodes| <= |g.nodes|
  {
    GroupHasLabels(g, |g.nodes|);
    GroupKeysAreLabels(g, |g.nodes|);
    ReducedEdges(g);
    var r := Reduced(g);
    assert Attributed(r);
    assert EdgesLabelled(r.edges, r.community);
  }

  /** The edges of the next level join its nodes, weigh at least 1, and no
      unordered pair of labels has two of them. */
  lemma ReducedEdges(g: Level)
    requires WellFormed(g)
    ensures var r := Reduced(g);
      && (forall t :: 0 <= t < |r.edges| ==> r.edges[t].0.0 in r.nodes && r.edges[t].0.1 in r.nodes && r.edges[t].1 >= 1)
      && Pairs.UnorderedDistinct(EdgeKeys(r.edges))
  {
    var es := Reduced(g).edges;
    forall t | 0 <= t < |es| ensures es[t].0.0 in Reduced(g).nodes && es[t].0.1 in Reduced(g).nodes && es[t].1 >= 1 {
      ReducedEdge(g, t);
    }
    var items := Relabel(g.edges, g.community);
    Pairs.FirstSeenKeysDistinct(items);
    assert EdgeKeys(es) == Pairs.FirstSeenKeys(items);
  }

  /** Relabelling keeps each edge's weight and keys it by its endpoints' labels. */
  lemma RelabelKeepsWeights(edges: seq<Edge>, community: map<int, int>)
    requires EdgesLabelled(edges, community)
    ensures forall s :: 0 <= s < |edges| ==>
      Relabel(edges, community)[s] == ((community[edges[s].0.0], community[edges[s].0.1]), edges[s].1)
  {
  }

  /** Edge `t` of the next level joins two labels and weighs at least 1. */
  lemma ReducedEdge(g: Level, t: int)
    requires Attributed(g) && EdgesLabelled(g.edges, g.community)
    requires forall s :: 0 <= s < |g.edges| ==> g.edges[s].0.0 in g.nodes && g.edges[s].0.1 in g.nodes && g.edges[s].1 >= 1
    requires 0 <= t < |Coalesced(Relabel(g.edges, g.community))|
    ensures var e := Coalesced(Relabel(g.edges, g.community))[t];
      e.0.0 in Group(g, |g.nodes|).0 && e.0.1 in Group(g, |g.nodes|).0 && e.1 >= 1
  {
    var labels := Group(g, |g.nodes|).0;
    GroupHasLabels(g, |g.nodes|);
    var items := Relabel(g.edges, g.community);
    RelabelKeepsWeights(g.edges, g.community);
    var keys := Pairs.FirstSeenKeys(items);
    assert Coalesced(items)[t] == (keys[t], Pairs.PairWeight(items, keys[t]));
    Pairs.FirstSeenKeysAreFirst(items, t);
    var s :| 0 <= s < |items| && items[s].0 == keys[t];
    var a, b := g.edges[s].0.0, g.edges[s].0.1;
    var ia :| 0 <= ia < |g.nodes| && g.nodes[ia] == a;
    var ib :| 0 <= ib < |g.nodes| && g.nodes[ib] == b;
    Pairs.KeysWeighAtLeastOne(items);
  }

  /** The loop of `compute_delta_q`: `tot`, `ki_in` and `ki` in one pass. */
  method CountGainTerms(edges: seq<Edge>, community: map<int, int>, v: int, c: int) returns (tot: int, kiIn: int, ki: int)
    requires EdgesLabelled(edges, community)
    ensures tot == Tot(edges, community, c)
    ensures kiIn == KiIn(edges, community, v, c)
    ensures ki == Ki(edges, v)
  {
    tot, kiIn, ki := 0, 0, 0;
    for t := 0 to |edges|
      invariant tot == Tot(edges[..t], community, c)
      invariant kiIn == KiIn(edges[..t], community, v, c)
      invariant ki == Ki(edges[..t], v)
    {
      var e := edges[t];
      assert edges[..t + 1][..t] == edges[..t];
      var aLabel, bLabel := community[e.0.0], community[e.0.1];
      if aLabel == c && bLabel == c {
        tot := tot + 2 * e.1;
      }
      if (e.0.0 == v && bLabel == c) || (e.0.1 == v && aLabel == c) {
        kiIn := kiIn + e.1;
      }
      if e.0.0 == v || e.0.1 == v {
        ki := ki + e.1;
      }
    }
    assert edges[..|edges|] == edges;
  }

  /** The loop of `neighbor_communities`: the labels across `v`'s edges. */
  method FindNeighbourLabels(edges: seq<Edge>, community: map<int, int>, v: int) returns (found: set<int>)
    requires EdgesLabelled(edges, community)
    ensures found == NeighbourLabels(edges, community, v)
  {
    found := {};
    for t := 0 to |edges|
      invariant found == NeighbourLabels(edges[..t], community, v)
    {
      var e := edges[t];
      assert edges[..t + 1][..t] == edges[..t];
      if e.0.0 == v {
        found := found + {community[e.0.1]};
      }
      if e.0.1 == v {
        found := found + {community[e.0.0]};
      }
    }
    assert edges[..|edges|] == edges;
  }

  /** What the machine keeps across a reduction: shape, weight and people. */
  lemma ReducedKeepsShape(g: Level)
    requires WellFormed(g)
    ensures WellFormed(Reduced(g)) && |Reduced(g).nodes| <= |g.nodes|
    ensures Pairs.Total(Reduced(g).edges) == Pairs.Total(g.edges)
    ensures multiset(People(Reduced(g))) == multiset(People(g))
  {
    ReducedWellFormed(g);
    ReducedWeight(g);
    ReducedPeople(g);
  }

  // ---------------------------------------------------------------------
  // The machine

  class LouvainMachine {
    var graph: Level
    var m: int
    var graphHistory: seq<Level>
    var actionHistory: seq<seq<(seq<Action>, Action)>>
    /** The nodes of the graph the machine was built from. */
    ghost var originals: seq<int>

    /** The level is well formed, `m` is its total weight, and its people
        lists together hold every original node exactly once. */
    ghost predicate Valid()
      reads this
    {
      && WellFormed(graph)
      && m == Pairs.Total(graph.edges)
      && multiset(People(graph)) == multiset(originals)
      && |graphHistory| >= 1
    }

    /** `__init__`: every node labelled by itself and standing for itself,
        every edge of weight 1, `m` the number of edges. */
    constructor (nodes: seq<int>, edges: seq<(int, int)>)
      requires Distinct(nodes)
      requires forall t :: 0 <= t < |edges| ==> edges[t].0 in nodes && edges[t].1 in nodes
      requires Pairs.UnorderedDistinct(edges)
      ensures Valid()
      ensures graph.nodes == nodes
      ensures forall i :: 0 <= i < |nodes| ==> graph.community[nodes[i]] == nodes[i] && graph.people[nodes[i]] == [nodes[i]]
      ensures |graph.edges| == |edges| && forall t :: 0 <= t < |edges| ==> graph.edges[t] == (edges[t], 1)
      ensures m == |edges|
      ensures graphHistory == [graph] && actionHistory == [] && originals == nodes
    {
      var community, people := Singletons(nodes);
      var es := UnitEdges(edges);
      var g := Level(nodes, community, people, es);
      InitialLevel(nodes, edges, g);
      graph := g;
      m := |es|;
      graphHistory := [g];
      actionHistory := [];
      originals := nodes;
    }

    /** `compute_delta_q`, one pass over the edges. */
    method ComputeDeltaQ(v: int, c: int) returns (dq: real)
      requires Valid() && v in graph.nodes
      requires c in NeighbourLabels(graph.edges, graph.community, v)
      ensures m > 0 && dq == DeltaQ(graph.edges, graph.community, m, v, c)
    {
      CandidateHasWeight(graph.edges, graph.community, v, c);
      var tot, kiIn, ki := CountGainTerms(graph.edges, graph.community, v, c);
      dq := (kiIn as real) / (m as real) - ((tot * ki) as real) / ((2 * m * m) as real);
    }

    /** `neighbor_communities`: the distinct labels of `v`'s neighbours, as
        a list in an unspecified order. */
    method NeighborCommunities(v: int) returns (cands: seq<int>)
      requires Valid() && v in graph.nodes
      ensures IsListing(cands, NeighbourLabels(graph.edges, graph.community, v))
    {
      var found := FindNeighbourLabels(graph.edges, graph.community, v);
      cands := ToList(found);
    }

    /** `louvain_assign_possible_actions`. */
    method PossibleActions(v: int) returns (actions: seq<Action>)
      requires Valid() && v in graph.nodes
      ensures ActionsFor(graph, m, v, actions)
    {
      var cands := NeighborCommunities(v);
      actions := [];
      for t := 0 to |cands|
        invariant |actions| == t
        invariant forall s :: 0 <= s < t ==>
          (m > 0 && actions[s] == Action(v, graph.community[v], cands[s], DeltaQ(graph.edges, graph.community, m, v, cands[s])))
      {
        var dq := ComputeDeltaQ(v, cands[t]);
        actions := actions + [Action(v, graph.community[v], cands[t], dq)];
      }
      assert Destinations(actions) == cands;
    }

    /** `apply_action`: only the moved node's label changes. */
    method ApplyAction(action: Action)
      requires Valid() && action.node in graph.nodes && action.destination in graph.nodes
      modifies this
      ensures Valid()
      ensures graph == old(graph).(community := old(graph.community)[action.node := action.destination])
      ensures m == old(m) && graphHistory == old(graphHistory) && actionHistory == old(actionHistory)
      ensures originals == old(originals)
    {
      MoveKeepsShape(graph, action.node, action.destination);
      graph := graph.(community := graph.community[action.node := action.destination]);
    }

    /** One visit of `louvain_assign`: list `v`'s actions, record them with
        the first best one, and apply it when its gain is positive. */
    method Visit(v: int) returns (entry: Option<(seq<Action>, Action)>, moved: bool)
      requires Valid() && v in graph.nodes
      modifies this
      ensures Valid()
      ensures m == old(m) && originals == old(originals)
      ensures graphHistory == old(graphHistory) && actionHistory == old(actionHistory)
      ensures SweepStep(old(graph), graph, m, v, entry, moved)
      ensures old(graph.edges) == [] ==> !moved
    {
      ghost var before := graph;
      var actions := PossibleActions(v);
      entry, moved := None, false;
      if |actions| > 0 {
        var k := FirstMaxIndex(actions);
        var best := actions[k];
        entry := Some((actions, best));
        VisitWithActions(before, m, v, actions, k);
        if best.value > 0.0 {
          ApplyAction(best);
          moved := true;
        }
      } else {
        VisitWithoutActions(before, m, v, actions);
      }
    }

    /** `louvain_assign`: one sweep over the nodes in order. The ghost
        `states` are the level after each visit; `improvement` tells whether
        some visit applied its best action. */
    method LouvainAssign() returns (improvement: bool, ghost states: seq<Level>,
                                    ghost entries: seq<Option<(seq<Action>, Action)>>, ghost moves: seq<bool>)
      requires Valid()
      modifies this
      ensures Valid()
      ensures m == old(m) && originals == old(originals) && graphHistory == old(graphHistory)
      ensures graph.nodes == old(graph.nodes) && graph.people == old(graph.people) && graph.edges == old(graph.edges)
      ensures |states| == |old(graph.nodes)| + 1 && states[0] == old(graph) && states[|states| - 1] == graph
      ensures |entries| == |old(graph.nodes)| && |moves| == |old(graph.nodes)|
      ensures forall i :: 0 <= i < |entries| ==> StepAt(states, entries, moves, m, old(graph.nodes), i)
      ensures improvement <==> true in moves
      ensures old(graph.edges) == [] ==> !improvement
      ensures actionHistory == old(actionHistory) + [Somes(entries)]
    {
      var order := graph.nodes;
      improvement := false;
      var phase: seq<(seq<Action>, Action)> := [];
      states, entries, moves := [graph], [], [];
      for i := 0 to |order|
        invariant Valid()
        invariant m == old(m) && originals == old(originals)
        invariant graphHistory == old(graphHistory) && actionHistory == old(actionHistory)
        invariant graph.nodes == order && graph.people == old(graph.people) && graph.edges == old(graph.edges)
        invariant |states| == i + 1 && states[0] == old(graph) && states[i] == graph
        invariant |entries| == i && |moves| == i
        invariant forall j :: 0 <= j < i ==> StepAt(states, entries, moves, m, order, j)
        invariant improvement <==> true in moves
        invariant old(graph.edges) == [] ==> !improvement
        invariant phase == Somes(entries)
      {
        var v := order[i];
        var entry, moved := Visit(v);
        if entry.Some? {
          phase := phase + [entry.value];
        }
        if moved {
          improvement := true;
        }
        SomesSnoc(entries, entry);
        ExtendTrace(states, entries, moves, m, order, graph, entry, moved);
        states, entries, moves := states + [graph], entries + [entry], moves + [moved];
      }
      actionHistory := actionHistory + [phase];
    }

    /** `louvain_reduce`: builds the next level without changing this one. */
    method LouvainReduce() returns (g: Level)
      requires Valid()
      ensures g == Reduced(graph)
    {
      var keys, dict := GroupCommunities(graph);
      var labels: map<int, int> := map[];
      for i := 0 to |keys|
        invariant forall l :: l in labels <==> l in keys[..i]
        invariant forall l :: l in labels ==> labels[l] == l
      {
        labels := labels[keys[i] := keys[i]];
      }
      assert keys[..|keys|] == keys;
      forall l ensures l in labels <==> l in Identity(keys) {
        assert l in labels <==> l in keys[..|keys|];
      }
      assert labels == Identity(keys);
      var items := RelabelEdges(graph.edges, graph.community);
      var edges := CoalesceEdges(items);
      g := Level(keys, labels, dict, edges);
    }

    /** `forward_louvain`: a sweep, then a reduction kept only when it
        shrinks the level. The ghost `states`, `entries` and `moves` are the
        sweep's trace, as `LouvainAssign` gives it; `swept` is the level
        right after the sweep. */
    method ForwardLouvain() returns (improvement: bool, ghost swept: Level, ghost states: seq<Level>,
                                     ghost entries: seq<Option<(seq<Action>, Action)>>, ghost moves: seq<bool>)
      requires Valid()
      modifies this
      ensures Valid()
      ensures m == old(m) && originals == old(originals)
      ensures SweepTrace(old(graph), states, entries, moves, m, swept)
      ensures actionHistory == old(actionHistory) + [Somes(entries)]
      ensures WellFormed(swept)
      ensures swept.nodes == old(graph.nodes) && swept.people == old(graph.people) && swept.edges == old(graph.edges)
      ensures !(true in moves) ==> swept == old(graph)
      ensures improvement <==> true in moves && Shrinks(swept)
      ensures improvement ==> ReducesTo(swept, graph) && |graph.nodes| < |old(graph.nodes)|
      ensures improvement ==> graphHistory == old(graphHistory) + [graph]
      ensures !improvement ==> graph == swept && graphHistory == old(graphHistory)
    {
      var moved;
      moved, states, entries, moves := LouvainAssign();
      swept := graph;
      if !moved {
        NoMoveKeepsLevel(states, entries, moves, m, old(graph.nodes), |entries|);
        return false, swept, states, entries, moves;
      }
      var g := LouvainReduce();
      ReducedKeepsShape(graph);
      if |g.nodes| == |graph.nodes| {
        return false, swept, states, entries, moves;
      }
      Adopt(g);
      improvement := true;
    }

    /** The tail of `forward_louvain`: the reduced level replaces the
        current one and is appended to the history. */
    method Adopt(g: Level)
      requires Valid() && g == Reduced(graph)
      modifies this
      ensures Valid()
      ensures graph == g && graphHistory == old(graphHistory) + [g]
      ensures m == old(m) && originals == old(originals) && actionHistory == old(actionHistory)
    {
      ReducedKeepsShape(graph);
      graph := g;
      graphHistory := graphHistory + [g];
    }

    /** `solve_communities`: repeat while a step shrinks the level. Each
        continuing step removes a node, so the loop ends; every step records
        one sweep, and only the continuing ones record a level. The ghost
        results are the last sweep: it starts from `start`, the last level
        recorded (or the initial one when none was), ends on the final
        level, and its actions are the last ones recorded; it moved no node,
        or reducing its result would not shrink it. */
    method SolveCommunities()
      returns (ghost start: Level, ghost states: seq<Level>, ghost entries: seq<Option<(seq<Action>, Action)>>,
               ghost moves: seq<bool>)
      requires Valid()
      modifies this
      ensures Valid()
      ensures m == old(m) && originals == old(originals)
      ensures |graph.nodes| <= |old(graph.nodes)|
      ensures old(graphHistory) <= graphHistory && |old(actionHistory)| < |actionHistory|
      ensures |actionHistory| - |graphHistory| == |old(actionHistory)| - |old(graphHistory)| + 1
      ensures LastRecorded(start, old(graph), |old(graphHistory)|, graphHistory)
      ensures SweepTrace(start, states, entries, moves, m, graph)
      ensures actionHistory[|actionHistory| - 1] == Somes(entries)
      ensures !(true in moves) || !Shrinks(graph)
    {
      var improvement: bool;
      improvement, start, states, entries, moves := Step(old(graph), old(graphHistory), old(actionHistory));
      while improvement
        invariant Valid()
        invariant m == old(m) && originals == old(originals)
        invariant |graph.nodes| + (if improvement then 1 else 0) <= |old(graph.nodes)|
        invariant improvement ==> Going(old(graph), old(graphHistory), old(actionHistory))
        invariant !improvement ==> Done(old(graph), old(graphHistory), old(actionHistory), start, states, entries, moves)
        decreases |graph.nodes| + (if improvement then 1 else 0)
      {
        improvement, start, states, entries, moves := Step(old(graph), old(graphHistory), old(actionHistory));
      }
    }

    /** The run begun on `g0`, with histories `h0` and `a0`, has recorded
        one level per sweep so far, and the current level is the last one
        recorded. */
    ghost predicate Going(g0: Level, h0: seq<Level>, a0: seq<seq<(seq<Action>, Action)>>)
      reads this
    {
      && h0 <= graphHistory
      && |actionHistory| - |graphHistory| == |a0| - |h0|
      && LastRecorded(graph, g0, |h0|, graphHistory)
    }

    /** The run begun on `g0`, with histories `h0` and `a0`, has stopped:
        its last sweep, from `start` to the current level, is the last
        action recorded and recorded no level. */
    ghost predicate Done(g0: Level, h0: seq<Level>, a0: seq<seq<(seq<Action>, Action)>>, start: Level, states: seq<Level>,
                         entries: seq<Option<(seq<Action>, Action)>>, moves: seq<bool>)
      reads this
    {
      && WellFormed(graph)
      && h0 <= graphHistory && |a0| < |actionHistory|
      && |actionHistory| - |graphHistory| == |a0| - |h0| + 1
      && LastRecorded(start, g0, |h0|, graphHistory)
      && SweepTrace(start, states, entries, moves, m, graph)
      && actionHistory[|actionHistory| - 1] == Somes(entries)
      && (!(true in moves) || !Shrinks(graph))
    }

    /** One pass of `solve_communities`'s loop: a `forward_louvain` call,
        which either continues the run or ends it. */
    method Step(ghost g0: Level, ghost h0: seq<Level>, ghost a0: seq<seq<(seq<Action>, Action)>>)
      returns (improvement: bool, ghost start: Level, ghost states: seq<Level>,
               ghost entries: seq<Option<(seq<Action>, Action)>>, ghost moves: seq<bool>)
      requires Valid() && Going(g0, h0, a0)
      modifies this
      ensures Valid()
      ensures m == old(m) && originals == old(originals)
      ensures improvement ==> Going(g0, h0, a0) && |graph.nodes| < |old(graph.nodes)|
      ensures !improvement ==> Done(g0, h0, a0, start, states, entries, moves) && |graph.nodes| <= |old(graph.nodes)|
    {
      ghost var swept: Level;
      ghost var recorded, acted := graphHistory, actionHistory;
      start := graph;
      improvement, swept, states, entries, moves := ForwardLouvain();
      SnocLast(actionHistory, acted, Somes(entries));
      if improvement {
        PrefixSnoc(h0, recorded, graphHistory, graph);
      }
    }
  }

  /** `start` is the last level recorded after the first `n0` entries of
      `history`, or `initial` when none was recorded. */
  ghost predicate LastRecorded(start: Level, initial: Level, n0: nat, history: seq<Level>)
  {
    if |history| <= n0 then start == initial else start == history[|history| - 1]
  }

  lemma SnocLast<T>(h: seq<T>, recorded: seq<T>, x: T)
    requires h == recorded + [x]
    ensures |recorded| < |h| && h[|h| - 1] == x
  {
  }

  lemma PrefixSnoc<T>(h0: seq<T>, recorded: seq<T>, h: seq<T>, x: T)
    requires h0 <= recorded && h == recorded + [x]
    ensures h0 <= h
  {
  }

  /** Relabelling a node with the label of a node keeps the level well
      formed and the people it stands for. */
  lemma MoveKeepsShape(g: Level, v: int, d: int)
    requires WellFormed(g) && v in g.nodes && d in g.nodes
    ensures WellFormed(g.(community := g.community[v := d]))
    ensures People(g.(community := g.community[v := d])) == People(g)
  {
    MoveKeepsLabels(g, v, d);
    MoveKeepsEdges(g, v, d);
  }

  lemma MoveKeepsEdges(g: Level, v: int, d: int)
    requires WellFormed(g)
    ensures var g2 := g.(community := g.community[v := d]);
      && People(g2) == People(g)
      && (forall t :: 0 <= t < |g2.edges| ==> g2.edges[t].0.0 in g2.nodes && g2.edges[t].0.1 in g2.nodes && g2.edges[t].1 >= 1)
      && Pairs.UnorderedDistinct(EdgeKeys(g2.edges))
  {
  }

  lemma MoveKeepsLabels(g: Level, v: int, d: int)
    requires WellFormed(g) && v in g.nodes && d in g.nodes
    ensures var c := g.community[v := d];
      && Attributed(g.(community := c))
      && (forall u {:trigger c[u]} :: u in c ==> c[u] in g.nodes)
      && EdgesLabelled(g.edges, c)
  {
  }

  /** Every node labelled by itself and standing for itself. */
  method Singletons(nodes: seq<int>) returns (community: map<int, int>, people: map<int, seq<int>>)
    ensures forall v :: v in community ==> v in nodes && community[v] == v
    ensures forall v :: v in people ==> v in nodes
    ensures forall j :: 0 <= j < |nodes| ==>
      nodes[j] in community && nodes[j] in people && community[nodes[j]] == nodes[j] && people[nodes[j]] == [nodes[j]]
  {
    community, people := map[], map[];
    for i := 0 to |nodes|
      invariant forall v :: v in community ==> v in nodes && community[v] == v
      invariant forall v :: v in people ==> v in nodes
      invariant forall j :: 0 <= j < i ==>
        nodes[j] in community && nodes[j] in people && community[nodes[j]] == nodes[j] && people[nodes[j]] == [nodes[j]]
    {
      community := community[nodes[i] := nodes[i]];
      people := people[nodes[i] := [nodes[i]]];
    }
  }

  /** Every edge with weight 1. */
  method UnitEdges(edges: seq<(int, int)>) returns (es: seq<Edge>)
    ensures |es| == |edges| && forall t :: 0 <= t < |edges| ==> es[t] == (edges[t], 1)
  {
    es := [];
    for t := 0 to |edges|
      invariant |es| == t && forall s :: 0 <= s < t ==> es[s] == (edges[s], 1)
    {
      es := es + [(edges[t], 1)];
    }
  }

  /** The level `__init__` builds is well formed, stands for exactly its own
      nodes, and weighs one per edge. */
  lemma InitialLevel(nodes: seq<int>, edges: seq<(int, int)>, g: Level)
    requires Distinct(nodes)
    requires forall t :: 0 <= t < |edges| ==> edges[t].0 in nodes && edges[t].1 in nodes
    requires Pairs.UnorderedDistinct(edges)
    requires g.nodes == nodes
    requires forall v :: v in g.community ==> v in nodes && g.community[v] == v
    requires forall v :: v in g.people ==> v in nodes
    requires forall j :: 0 <= j < |nodes| ==>
      nodes[j] in g.community && nodes[j] in g.people && g.community[nodes[j]] == nodes[j] && g.people[nodes[j]] == [nodes[j]]
    requires |g.edges| == |edges| && forall t :: 0 <= t < |edges| ==> g.edges[t] == (edges[t], 1)
    ensures WellFormed(g)
    ensures People(g) == nodes
    ensures Pairs.Total(g.edges) == |edges|
  {
    assert EdgeKeys(g.edges) == edges;
    assert Attributed(g);
    forall t | 0 <= t < |g.edges|
      ensures g.edges[t].0.0 in g.community && g.edges[t].0.1 in g.community
    {
      var a, b := edges[t].0, edges[t].1;
      var i :| 0 <= i < |nodes| && nodes[i] == a;
      var j :| 0 <= j < |nodes| && nodes[j] == b;
    }
    assert EdgesLabelled(g.edges, g.community);
    SingletonPeople(nodes, g.people);
    UnitTotal(g.edges);
  }

  /** The community dictionary of `louvain_reduce`, one node at a time. */
  method GroupCommunities(g: Level) returns (keys: seq<int>, dict: map<int, seq<int>>)
    requires Attributed(g)
    ensures (keys, dict) == Group(g, |g.nodes|)
  {
    keys, dict := [], map[];
    for i := 0 to |g.nodes|
      invariant (keys, dict) == Group(g, i)
    {
      var v := g.nodes[i];
      var l := g.community[v];
      if l in dict {
        dict := dict[l := dict[l] + g.people[v]];
      } else {
        keys := keys + [l];
        dict := dict[l := g.people[v]];
      }
    }
  }

  /** The edges of `louvain_reduce` re-keyed by community label. */
  method RelabelEdges(edges: seq<Edge>, community: map<int, int>) returns (items: seq<Edge>)
    requires EdgesLabelled(edges, community)
    ensures items == Relabel(edges, community)
  {
    items := [];
    for t := 0 to |edges|
      invariant items == Relabel(edges[..t], community)
    {
      var e := edges[t];
      items := items + [((community[e.0.0], community[e.0.1]), e.1)];
    }
    assert edges[..|edges|] == edges;
  }

  /** The edges of the next level: one per unordered label pair. */
  method CoalesceEdges(items: seq<Edge>) returns (edges: seq<Edge>)
    ensures edges == Coalesced(items)
  {
    var keys, weight := Pairs.Coalesce(items);
    edges := [];
    for t := 0 to |keys|
      invariant edges == Coalesced(items)[..t]
    {
      edges := edges + [(keys[t], weight[keys[t]])];
    }
  }

  /** At level 0 each node stands for itself. */
  lemma {:induction false} SingletonPeople(nodes: seq<int>, people: map<int, seq<int>>)
    requires forall i :: 0 <= i < |nodes| ==> nodes[i] in people && people[nodes[i]] == [nodes[i]]
    ensures Collect(nodes, people) == nodes
  {
    if nodes != [] {
      var init, last := nodes[..|nodes| - 1], nodes[|nodes| - 1];
      SingletonPeople(init, people);
      assert Collect(nodes, people) == Collect(init, people) + people[last];
      assert nodes == init + [last];
    }
  }

  lemma {:induction false} UnitTotal(es: seq<Edge>)
    requires forall t :: 0 <= t < |es| ==> es[t].1 == 1
    ensures Pairs.Total(es) == |es|
  {
    if es != [] {
      UnitTotal(es[..|es| - 1]);
    }
  }
}
