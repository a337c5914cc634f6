/** Conversions between lists of communities and per-node labels:
    the Python `communities_to_labels` (sorted `(node label, community
    index + 1)` pairs) and `generation_transformation_dict`, and the C++
    `communitiesToLabels` (label vector, -1 for unassigned nodes) and
    `labelsToCommunities` (grouping of indices by label, in the unspecified
    order of an unordered map). */
module Labels {
  import opened Common

  // ---------------------------------------------------------------------
  // Python: sorted (label, community) pairs

  /** The pairs in the order the loops emit them: community by community,
      member by member, each node translated through `names`. */
  function LabelPairs(names: seq<int>, cs: seq<seq<int>>): seq<(int, int)>
    requires InRange(cs, |names|)
  {
    if cs == [] then []
    else
      var last := cs[|cs| - 1];
      LabelPairs(names, cs[..|cs| - 1])
        + seq(|last|, t requires 0 <= t < |last| => (names[last[t]], |cs|))
  }

  lemma LabelPairsMember(names: seq<int>, cs: seq<seq<int>>, p: (int, int))
    requires InRange(cs, |names|)
    ensures p in LabelPairs(names, cs) <==>
      exists c, t :: 0 <= c < |cs| && 0 <= t < |cs[c]| && p == (names[cs[c][t]], c + 1)
  {
    if p in LabelPairs(names, cs) {
      LabelPairsSound(names, cs, p);
    }
    if exists c, t :: 0 <= c < |cs| && 0 <= t < |cs[c]| && p == (names[cs[c][t]], c + 1) {
      var c, t :| 0 <= c < |cs| && 0 <= t < |cs[c]| && p == (names[cs[c][t]], c + 1);
      LabelPairsComplete(names, cs, c, t);
    }
  }

  /** Every emitted pair is some member's label with its community index. */
  lemma {:induction false} LabelPairsSound(names: seq<int>, cs: seq<seq<int>>, p: (int, int))
    requires InRange(cs, |names|) && p in LabelPairs(names, cs)
    ensures exists c, t :: 0 <= c < |cs| && 0 <= t < |cs[c]| && p == (names[cs[c][t]], c + 1)
  {
    var init, last := cs[..|cs| - 1], cs[|cs| - 1];
    var tail := seq(|last|, t requires 0 <= t < |last| => (names[last[t]], |cs|));
    assert LabelPairs(names, cs) == LabelPairs(names, init) + tail;
    if p in tail {
      var t :| 0 <= t < |tail| && tail[t] == p;
      assert p == (names[cs[|cs| - 1][t]], (|cs| - 1) + 1);
    } else {
      LabelPairsSound(names, init, p);
      var c, t :| 0 <= c < |init| && 0 <= t < |init[c]| && p == (names[init[c][t]], c + 1);
      assert init[c] == cs[c];
    }
  }

  /** Every member's label is emitted with its community index. */
  lemma {:induction false} LabelPairsComplete(names: seq<int>, cs: seq<seq<int>>, c: nat, t: nat)
    requires InRange(cs, |names|) && c < |cs| && t < |cs[c]|
    ensures (names[cs[c][t]], c + 1) in LabelPairs(names, cs)
  {
    var init, last := cs[..|cs| - 1], cs[|cs| - 1];
    var tail := seq(|last|, t requires 0 <= t < |last| => (names[last[t]], |cs|));
    assert LabelPairs(names, cs) == LabelPairs(names, init) + tail;
    if c == |cs| - 1 {
      assert tail[t] == (names[cs[c][t]], c + 1);
    } else {
      assert init[c] == cs[c];
      LabelPairsComplete(names, init, c, t);
    }
  }

  /** One pair per listed member. */
  lemma {:induction false} LabelPairsLength(names: seq<int>, cs: seq<seq<int>>)
    requires InRange(cs, |names|)
    ensures |LabelPairs(names, cs)| == |Flatten(cs)|
  {
    if cs != [] {
      LabelPairsLength(names, cs[..|cs| - 1]);
    }
  }

  /** Lexicographic order on pairs, as Python compares tuples. */
  predicate PairLe(p: (int, int), q: (int, int))
  {
    p.0 < q.0 || (p.0 == q.0 && p.1 <= q.1)
  }

  predicate SortedPairs(s: seq<(int, int)>)
  {
    forall i, j :: 0 <= i < j < |s| ==> PairLe(s[i], s[j])
  }

  /** Inserts `x` before the first element it does not exceed. */
  function InsertPair(x: (int, int), s: seq<(int, int)>): seq<(int, int)>
  {
    if s == [] then [x]
    else if PairLe(x, s[0]) then [x] + s
    else [s[0]] + InsertPair(x, s[1..])
  }

  lemma {:induction false} InsertPairCount(x: (int, int), s: seq<(int, int)>)
    ensures multiset(InsertPair(x, s)) == multiset(s) + multiset{x}
  {
    if s != [] && !PairLe(x, s[0]) {
      InsertPairCount(x, s[1..]);
      assert s == [s[0]] + s[1..];
    }
  }

  lemma {:induction false} InsertPairSorted(x: (int, int), s: seq<(int, int)>)
    requires SortedPairs(s)
    ensures SortedPairs(InsertPair(x, s))
  {
    if s != [] && !PairLe(x, s[0]) {
      SortedTail(s);
      InsertPairSorted(x, s[1..]);
      InsertPairBelow(s[0], x, s[1..]);
      SortedCons(s[0], InsertPair(x, s[1..]));
    }
  }

  /** A lower bound of `x` and of every element of `t` bounds the result of
      inserting `x` into `t`. */
  lemma {:induction false} InsertPairBelow(h: (int, int), x: (int, int), t: seq<(int, int)>)
    requires PairLe(h, x) && forall k :: 0 <= k < |t| ==> PairLe(h, t[k])
    ensures forall k :: 0 <= k < |InsertPair(x, t)| ==> PairLe(h, InsertPair(x, t)[k])
  {
    if t != [] && !PairLe(x, t[0]) {
      InsertPairBelow(h, x, t[1..]);
    }
  }

  /** A head below every element of a sorted list keeps it sorted. */
  lemma SortedCons(h: (int, int), rest: seq<(int, int)>)
    requires SortedPairs(rest) && forall k :: 0 <= k < |rest| ==> PairLe(h, rest[k])
    ensures SortedPairs([h] + rest)
  {
  }

  /** `sorted(res)`: the ascending arrangement of a list of pairs. */
  function SortPairs(s: seq<(int, int)>): seq<(int, int)>
  {
    if s == [] then [] else InsertPair(s[|s| - 1], SortPairs(s[..|s| - 1]))
  }

  lemma {:induction false} SortPairsSpec(s: seq<(int, int)>)
    ensures SortedPairs(SortPairs(s))
    ensures multiset(SortPairs(s)) == multiset(s)
  {
    if s != [] {
      SortPairsSpec(s[..|s| - 1]);
      InsertPairCount(s[|s| - 1], SortPairs(s[..|s| - 1]));
      InsertPairSorted(s[|s| - 1], SortPairs(s[..|s| - 1]));
      assert s == s[..|s| - 1] + [s[|s| - 1]];
    }
  }

  /** The head of a sorted list is below every element. */
  lemma SortedHead(s: seq<(int, int)>, x: (int, int))
    requires SortedPairs(s) && x in multiset(s)
    ensures PairLe(s[0], x)
  {
    var i :| 0 <= i < |s| && s[i] == x;
    if i > 0 {
      assert PairLe(s[0], s[i]);
    }
  }

  /** Two sorted arrangements of the same multiset of pairs are equal, so
      the sorted output is determined by its contents. */
  lemma {:induction false} SortedUnique(r: seq<(int, int)>, s: seq<(int, int)>)
    requires SortedPairs(r) && SortedPairs(s) && multiset(r) == multiset(s)
    ensures r == s
    decreases |r|
  {
    assert |s| == |multiset(s)| == |multiset(r)| == |r|;
    if r != [] {
      assert r[0] in multiset(r) && s[0] in multiset(s);
      SortedHead(s, r[0]);
      SortedHead(r, s[0]);
      SortedTail(r);
      SortedTail(s);
      SortedUnique(r[1..], s[1..]);
      ConsEqual(r, s);
    }
  }

  /** Dropping the head of a sorted list leaves a sorted list without it. */
  lemma SortedTail(r: seq<(int, int)>)
    requires SortedPairs(r) && r != []
    ensures SortedPairs(r[1..])
    ensures multiset(r[1..]) == multiset(r) - multiset{r[0]}
  {
    assert r == [r[0]] + r[1..];
  }

  /** Lists with equal heads and equal tails are equal. */
  lemma ConsEqual(r: seq<(int, int)>, s: seq<(int, int)>)
    requires r != [] && s != [] && r[0] == s[0] && r[1..] == s[1..]
    ensures r == s
  {
    assert r == [r[0]] + r[1..];
    assert s == [s[0]] + s[1..];
  }

  /** `communities_to_labels`: one `(names[node], index + 1)` pair per
      listed member, returned in ascending order. */
  method CommunitiesToLabelPairs(names: seq<int>, communities: seq<seq<int>>) returns (res: seq<(int, int)>)
    requires InRange(communities, |names|)
    ensures SortedPairs(res)
    ensures multiset(res) == multiset(LabelPairs(names, communities))
  {
    var acc: seq<(int, int)> := [];
    var index := 0;
    while index < |communities|
      invariant 0 <= index <= |communities|
      invariant acc == LabelPairs(names, communities[..index])
    {
      var community := communities[index];
      ghost var before := acc;
      var t := 0;
      while t < |community|
        invariant 0 <= t <= |community|
        invariant acc == before + seq(t, k requires 0 <= k < t => (names[community[k]], index + 1))
      {
        acc := acc + [(names[community[t]], index + 1)];
        t := t + 1;
      }
      assert communities[..index + 1][..index] == communities[..index];
      index := index + 1;
    }
    assert communities[..index] == communities;
    res := SortPairs(acc);
    SortPairsSpec(acc);
  }

  /** `generation_transformation_dict`: position `i` maps to `nodes[i]`. */
  method TransformationDict(nodes: seq<int>) returns (dic: map<int, int>)
    ensures forall i :: i in dic <==> 0 <= i < |nodes|
    ensures forall i :: 0 <= i < |nodes| ==> dic[i] == nodes[i]
  {
    dic := map[];
    var i := 0;
    while i < |nodes|
      invariant 0 <= i <= |nodes|
      invariant forall k :: k in dic <==> 0 <= k < i
      invariant forall k :: 0 <= k < i ==> dic[k] == nodes[k]
    {
      dic := dic[i := nodes[i]];
      i := i + 1;
    }
  }

  // ---------------------------------------------------------------------
  // C++: label vectors

  /** The largest listed node, or -1 when nothing is listed. */
  function MaxNode(s: seq<int>): int
  {
    if s == [] then -1
    else
      var m := MaxNode(s[..|s| - 1]);
      if s[|s| - 1] > m then s[|s| - 1] else m
  }

  lemma {:induction false} MaxNodeIsMax(s: seq<int>)
    ensures forall x :: x in s ==> x <= MaxNode(s)
    ensures MaxNode(s) == -1 || MaxNode(s) in s
    ensures MaxNode(s) >= -1
  {
    if s != [] {
      MaxNodeIsMax(s[..|s| - 1]);
      assert s == s[..|s| - 1] + [s[|s| - 1]];
    }
  }

  /** The index of the last community listing `v`, or -1. */
  function LastLabel(cs: seq<seq<int>>, v: int): int
  {
    if cs == [] then -1
    else if v in cs[|cs| - 1] then |cs| - 1
    else LastLabel(cs[..|cs| - 1], v)
  }

  lemma {:induction false} LastLabelSpec(cs: seq<seq<int>>, v: int)
    ensures -1 <= LastLabel(cs, v) < |cs|
    ensures LastLabel(cs, v) == -1 <==> forall c :: 0 <= c < |cs| ==> v !in cs[c]
    ensures LastLabel(cs, v) >= 0 ==>
      v in cs[LastLabel(cs, v)] && forall c :: LastLabel(cs, v) < c < |cs| ==> v !in cs[c]
  {
    if cs != [] {
      var init := cs[..|cs| - 1];
      LastLabelSpec(init, v);
      assert forall c :: 0 <= c < |init| ==> init[c] == cs[c];
    }
  }

  /** The maximum scan: the C++ first loop. */
  method MaxListedNode(communities: seq<seq<int>>) returns (maxIndex: int)
    ensures maxIndex == MaxNode(Flatten(communities))
  {
    maxIndex := -1;
    var i := 0;
    while i < |communities|
      invariant 0 <= i <= |communities|
      invariant maxIndex == MaxNode(Flatten(communities[..i]))
    {
      var community := communities[i];
      ghost var before := Flatten(communities[..i]);
      var t := 0;
      EmptyPrefix(before, community);
      while t < |community|
        invariant 0 <= t <= |community|
        invariant maxIndex == MaxNode(before + community[..t])
      {
        MaxNodeSnoc(before, community, t);
        maxIndex := if community[t] > maxIndex then community[t] else maxIndex;
        t := t + 1;
      }
      FlattenPrefixStep(communities, i);
      i := i + 1;
    }
    assert communities[..i] == communities;
  }

  lemma EmptyPrefix(before: seq<int>, community: seq<int>)
    ensures before + community[..0] == before
  {
  }

  /** One more scanned entry updates the running maximum. */
  lemma MaxNodeSnoc(before: seq<int>, community: seq<int>, t: nat)
    requires t < |community|
    ensures MaxNode(before + community[..t + 1])
         == if community[t] > MaxNode(before + community[..t]) then community[t] else MaxNode(before + community[..t])
  {
    assert (before + community[..t + 1])[..|before| + t] == before + community[..t];
  }

  /** Flattening one more community appends it whole. */
  lemma FlattenPrefixStep(communities: seq<seq<int>>, i: nat)
    requires i < |communities|
    ensures Flatten(communities[..i + 1]) == Flatten(communities[..i]) + communities[i][..|communities[i]|]
  {
    assert communities[..i + 1] == communities[..i] + [communities[i]];
    FlattenAppend(communities[..i], communities[i]);
    assert communities[i][..|communities[i]|] == communities[i];
  }

  /** `communitiesToLabels`: a vector of length (largest node + 1) whose
      entry `v` is the last community index listing `v`, or -1. */
  method CommunitiesToLabels(communities: seq<seq<int>>) returns (labels: seq<int>)
    requires forall c, t :: 0 <= c < |communities| && 0 <= t < |communities[c]| ==> communities[c][t] >= 0
    ensures |labels| == MaxNode(Flatten(communities)) + 1
    ensures forall v :: 0 <= v < |labels| ==> labels[v] == LastLabel(communities, v)
  {
    var maxIndex := MaxListedNode(communities);
    MaxNodeIsMax(Flatten(communities));
    labels := seq(maxIndex + 1, _ => -1);
    var i := 0;
    while i < |communities|
      invariant 0 <= i <= |communities|
      invariant |labels| == maxIndex + 1
      invariant forall v :: 0 <= v < |labels| ==> labels[v] == LastLabel(communities[..i], v)
    {
      var community := communities[i];
      assert communities[..i + 1][..i] == communities[..i];
      var t := 0;
      while t < |community|
        invariant 0 <= t <= |community|
        invariant |labels| == maxIndex + 1
        invariant forall v :: 0 <= v < |labels| ==>
          labels[v] == if v in community[..t] then i else LastLabel(communities[..i], v)
      {
        var node := community[t];
        FlattenMember(communities, node);
        assert node in Flatten(communities);
        assert community[..t + 1] == community[..t] + [node];
        labels := labels[node := i];
        t := t + 1;
      }
      assert community[..t] == community;
      assert communities[..i + 1][i] == community;
      i := i + 1;
    }
    assert communities[..i] == communities;
  }

  // ---------------------------------------------------------------------
  // C++: grouping indices by label

  /** The indices holding label `l`, ascending. */
  function Members(labels: seq<int>, l: int): seq<int>
  {
    if labels == [] then []
    else Members(labels[..|labels| - 1], l) + (if labels[|labels| - 1] == l then [|labels| - 1] else [])
  }

  lemma MembersSpec(labels: seq<int>, l: int)
    ensures forall x :: x in Members(labels, l) <==> 0 <= x < |labels| && labels[x] == l
    ensures Distinct(Members(labels, l))
    ensures l !in labels ==> Members(labels, l) == []
  {
    MembersMember(labels, l);
    MembersDistinct(labels, l);
  }

  lemma {:induction false} MembersMember(labels: seq<int>, l: int)
    ensures forall x :: x in Members(labels, l) <==> 0 <= x < |labels| && labels[x] == l
  {
    if labels != [] {
      var init := labels[..|labels| - 1];
      MembersMember(init, l);
      assert forall x :: 0 <= x < |init| ==> init[x] == labels[x];
    }
  }

  lemma {:induction false} MembersDistinct(labels: seq<int>, l: int)
    ensures Distinct(Members(labels, l))
  {
    if labels != [] {
      var init := labels[..|labels| - 1];
      var m := Members(init, l);
      MembersDistinct(init, l);
      MembersMember(init, l);
      if labels[|labels| - 1] == l {
        forall i | 0 <= i < |m| ensures m[i] != |labels| - 1 {
          assert m[i] in m;
        }
        DistinctSnoc(m, |labels| - 1);
      }
    }
  }

  /** The labels in use. */
  function LabelSet(labels: seq<int>): set<int>
  {
    set x | x in labels
  }

  /** C++'s conversion of a `double` to `int`: truncation toward zero. */
  function Trunc(x: real): (r: int)
    ensures 0.0 <= x ==> 0 <= r && r as real <= x < r as real + 1.0
    ensures x < 0.0 ==> r <= 0 && r as real - 1.0 < x <= r as real
  {
    if x >= 0.0 then x.Floor else -((-x).Floor)
  }

  /** Every label turned into its `int` map key. */
  function Truncated(labels: seq<real>): (r: seq<int>)
    ensures |r| == |labels|
  {
    seq(|labels|, i requires 0 <= i < |labels| => Trunc(labels[i]))
  }

  /** A label that already holds an integer is its own key. */
  lemma TruncInt(n: int)
    ensures Trunc(n as real) == n
  {
    if n < 0 {
      assert -(n as real) == (-n) as real;
    }
  }

  /** Whole-number labels held as doubles (k-means cluster indices) come
      back as the same integer keys. */
  lemma TruncatedInts(ints: seq<int>, labels: seq<real>)
    requires |labels| == |ints|
    requires forall i :: 0 <= i < |ints| ==> labels[i] == ints[i] as real
    ensures Truncated(labels) == ints
  {
    forall i | 0 <= i < |ints| ensures Truncated(labels)[i] == ints[i] {
      TruncInt(ints[i]);
    }
  }

  /** Reading one more label adds its index to that label's group only. */
  lemma BucketStep(keys: seq<int>, i: nat)
    requires i < |keys|
    ensures LabelSet(keys[..i + 1]) == LabelSet(keys[..i]) + {keys[i]}
    ensures forall l :: Members(keys[..i + 1], l) == Members(keys[..i], l) + (if l == keys[i] then [i] else [])
    ensures keys[i] !in LabelSet(keys[..i]) ==> Members(keys[..i], keys[i]) == []
  {
    assert keys[..i + 1][..i] == keys[..i];
    MembersSpec(keys[..i], keys[i]);
  }

  /** The values of an unordered map, in the order it yields its keys; the
      key order is the ghost result `order`. */
  method MapValues(buckets: map<int, seq<int>>) returns (groups: seq<seq<int>>, ghost order: seq<int>)
    ensures IsListing(order, buckets.Keys) && |groups| == |order|
    ensures forall t :: 0 <= t < |groups| ==> groups[t] == buckets[order[t]]
  {
    groups := [];
    order := [];
    var rest := buckets.Keys;
    while rest != {}
      invariant rest <= buckets.Keys
      invariant Distinct(order) && |groups| == |order|
      invariant (set x | x in order) == buckets.Keys - rest
      invariant forall t :: 0 <= t < |groups| ==> order[t] in buckets && groups[t] == buckets[order[t]]
      decreases rest
    {
      ghost var someKey := Witness(rest);
      var key :| key in rest;
      assert (set x | x in order + [key]) == (set x | x in order) + {key};
      groups := groups + [buckets[key]];
      order := order + [key];
      rest := rest - {key};
    }
  }

  /** `labelsToCommunities`: the labels arrive as doubles, and each is
      truncated toward zero to the `int` key of an unordered map. One group
      per key in use, in the order the map yields its keys; each group lists
      its indices in ascending order. The key order is the ghost result
      `order`. */
  method LabelsToCommunities(labels: seq<real>) returns (groups: seq<seq<int>>, ghost order: seq<int>)
    ensures IsListing(order, LabelSet(Truncated(labels)))
    ensures |groups| == |order|
    ensures forall t :: 0 <= t < |groups| ==> groups[t] == Members(Truncated(labels), order[t])
    ensures GroupsByLabel(Truncated(labels), groups)
  {
    var keys := Truncated(labels);
    var buckets: map<int, seq<int>> := map[];
    var i := 0;
    while i < |keys|
      invariant 0 <= i <= |keys|
      invariant buckets.Keys == LabelSet(keys[..i])
      invariant forall l :: l in buckets ==> buckets[l] == Members(keys[..i], l)
    {
      var l := keys[i];
      BucketStep(keys, i);
      if l in buckets {
        buckets := buckets[l := buckets[l] + [i]];
      } else {
        assert l !in keys[..i];
        buckets := buckets[l := [i]];
      }
      i := i + 1;
    }
    assert keys[..i] == keys;
    groups, order := MapValues(buckets);
    ListedGroupsByLabel(keys, order, groups);
  }

  /** `groups` holds one non-empty group per label in use, no two alike,
      each group being exactly the indices carrying the label of its first
      index; every index's label is the label of some group. */
  predicate GroupsByLabel(labels: seq<int>, groups: seq<seq<int>>)
  {
    (forall t :: 0 <= t < |groups| ==>
       groups[t] != [] && 0 <= groups[t][0] < |labels|
       && groups[t] == Members(labels, labels[groups[t][0]]))
    && (forall t1, t2 :: 0 <= t1 < t2 < |groups| ==> groups[t1] != groups[t2])
    && |groups| == |LabelSet(labels)|
    && (forall x :: 0 <= x < |labels| ==>
          exists t :: 0 <= t < |groups| && labels[groups[t][0]] == labels[x])
  }

  /** Groups listed by a key order over the labels in use are the groups by
      label, whatever that order. */
  lemma ListedGroupsByLabel(labels: seq<int>, order: seq<int>, groups: seq<seq<int>>)
    requires IsListing(order, LabelSet(labels)) && |groups| == |order|
    requires forall t :: 0 <= t < |groups| ==> groups[t] == Members(labels, order[t])
    ensures GroupsByLabel(labels, groups)
  {
    DistinctCard(order);
    forall t | 0 <= t < |groups|
      ensures groups[t] != [] && 0 <= groups[t][0] < |labels| && labels[groups[t][0]] == order[t]
    {
      GroupHead(labels, order, t);
    }
    forall x | 0 <= x < |labels|
      ensures exists t :: 0 <= t < |groups| && labels[groups[t][0]] == labels[x]
    {
      assert labels[x] in LabelSet(labels);
      var t :| 0 <= t < |order| && order[t] == labels[x];
    }
  }

  /** The first index of the group of `order[t]` carries that label. */
  lemma GroupHead(labels: seq<int>, order: seq<int>, t: nat)
    requires IsListing(order, LabelSet(labels)) && t < |order|
    ensures Members(labels, order[t]) != []
    ensures 0 <= Members(labels, order[t])[0] < |labels|
    ensures labels[Members(labels, order[t])[0]] == order[t]
  {
    GroupsNonEmpty(labels, order, t);
    MembersSpec(labels, order[t]);
    assert Members(labels, order[t])[0] in Members(labels, order[t]);
  }

  /** Every group is non-empty. */
  lemma GroupsNonEmpty(labels: seq<int>, order: seq<int>, t: nat)
    requires IsListing(order, LabelSet(labels)) && t < |order|
    ensures Members(labels, order[t]) != []
  {
    assert order[t] in LabelSet(labels);
    var x :| 0 <= x < |labels| && labels[x] == order[t];
    MembersSpec(labels, order[t]);
    assert x in Members(labels, order[t]);
  }

  /** Every index lies in the group of its label. */
  lemma GroupsCover(labels: seq<int>, order: seq<int>, x: nat)
    requires IsListing(order, LabelSet(labels)) && x < |labels|
    ensures exists t :: 0 <= t < |order| && order[t] == labels[x] && x in Members(labels, order[t])
  {
    assert labels[x] in LabelSet(labels);
    var t :| 0 <= t < |order| && order[t] == labels[x];
    MembersSpec(labels, order[t]);
    assert x in Members(labels, order[t]);
  }

  /** No index lies in two groups. */
  lemma GroupsDisjoint(labels: seq<int>, order: seq<int>, x: int, t1: nat, t2: nat)
    requires IsListing(order, LabelSet(labels)) && t1 < |order| && t2 < |order|
    requires x in Members(labels, order[t1]) && x in Members(labels, order[t2])
    ensures t1 == t2
  {
    MembersSpec(labels, order[t1]);
    MembersSpec(labels, order[t2]);
  }

  /** A partition of 0..n-1 lists exactly the nodes below `n`, so its
      largest node is `n - 1`. */
  lemma PartitionMaxNode(cs: seq<seq<int>>, n: nat)
    requires IsPartition(cs, n)
    ensures MaxNode(Flatten(cs)) + 1 == n
  {
    var f := Flatten(cs);
    assert forall x :: x in f <==> 0 <= x < n by {
      forall x ensures x in f <==> 0 <= x < n {
        RangeCount(n, x);
        assert x in f <==> x in multiset(f);
      }
    }
    MaxNodeIsMax(f);
    if n > 0 {
      assert n - 1 in f;
    } else if f != [] {
      assert f[0] in f;
    }
  }

  /** In a partition, the last community listing a node is its only one. */
  lemma PartitionLabels(cs: seq<seq<int>>, n: nat)
    requires IsPartition(cs, n)
    ensures forall c, v :: 0 <= c < |cs| && v in cs[c] ==> LastLabel(cs, v) == c
  {
    forall c, v | 0 <= c < |cs| && v in cs[c] ensures LastLabel(cs, v) == c {
      PartitionMember(cs, n, v);
      LastLabelSpec(cs, v);
    }
  }

  /** Round trip: for a partition of 0..n-1, grouping the labels that
      `communitiesToLabels` assigns gives back each community as a set,
      under the label that is its index. */
  lemma LabelsRoundTrip(cs: seq<seq<int>>, n: nat, labels: seq<int>)
    requires IsPartition(cs, n)
    requires |labels| == MaxNode(Flatten(cs)) + 1
    requires forall v :: 0 <= v < |labels| ==> labels[v] == LastLabel(cs, v)
    ensures forall c :: c in LabelSet(labels) <==> 0 <= c < |cs|
    ensures forall c :: 0 <= c < |cs| ==> (set x | x in Members(labels, c)) == (set x | x in cs[c])
  {
    PartitionMaxNode(cs, n);
    PartitionLabels(cs, n);
    PartitionInRange(cs, n);
    forall c | 0 <= c < |cs| ensures c in LabelSet(labels) {
      var v := cs[c][0];
      assert v in cs[c];
      assert labels[v] == c;
    }
    forall c | c in LabelSet(labels) ensures 0 <= c < |cs| {
      var v :| 0 <= v < |labels| && labels[v] == c;
      LabelInRange(cs, n, v);
    }
    forall c | 0 <= c < |cs| ensures (set x | x in Members(labels, c)) == (set x | x in cs[c]) {
      GroupIsCommunity(cs, n, labels, c);
    }
  }

  /** Every node of a partition is listed, so its last label is an index. */
  lemma LabelInRange(cs: seq<seq<int>>, n: nat, v: int)
    requires IsPartition(cs, n) && 0 <= v < n
    ensures 0 <= LastLabel(cs, v) < |cs|
  {
    PartitionMember(cs, n, v);
    LastLabelSpec(cs, v);
  }

  /** The indices labelled `c` are exactly the members of community `c`. */
  lemma GroupIsCommunity(cs: seq<seq<int>>, n: nat, labels: seq<int>, c: nat)
    requires IsPartition(cs, n) && c < |cs|
    requires |labels| == n
    requires forall v :: 0 <= v < |labels| ==> labels[v] == LastLabel(cs, v)
    requires forall c, v :: 0 <= c < |cs| && v in cs[c] ==> LastLabel(cs, v) == c
    requires InRange(cs, n)
    ensures (set x | x in Members(labels, c)) == (set x | x in cs[c])
  {
    MembersSpec(labels, c);
    forall x | x in Members(labels, c) ensures x in cs[c] {
      PartitionMember(cs, n, x);
      LastLabelSpec(cs, x);
    }
  }
}
