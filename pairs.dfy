/** Pairs of list elements: the ordered pair listing `(t[i], t[j])` for
    every i < j (what `_generate_binary_collaborations` and
    `itertools.combinations(t, 2)` produce), and the dictionary that
    coalesces weighted pairs by unordered pair, keyed by the orientation seen
    first (used by `_generate_weighted_collaboration` and `louvain_reduce`). */
module Pairs {
  import opened Common

  /** Row `i` of the listing: `t[i]` paired with every later element. */
  function Row<T>(t: seq<T>, i: nat): seq<(T, T)>
    requires i < |t|
  {
    seq(|t| - i - 1, k requires 0 <= k < |t| - i - 1 => (t[i], t[i + 1 + k]))
  }

  /** Rows `0 .. i-1` of the listing, concatenated. */
  function PairsBefore<T>(t: seq<T>, i: nat): seq<(T, T)>
    requires i <= |t|
  {
    if i == 0 then [] else PairsBefore(t, i - 1) + Row(t, i - 1)
  }

  /** Every pair `(t[i], t[j])` with i < j, ordered by i and then by j. */
  function Combinations<T>(t: seq<T>): seq<(T, T)>
  {
    PairsBefore(t, |t|)
  }

  lemma {:induction false} PairsBeforeLength<T>(t: seq<T>, i: nat)
    requires i <= |t|
    ensures 2 * |PairsBefore(t, i)| == i * (2 * |t| - i - 1)
  {
    if i > 0 {
      PairsBeforeLength(t, i - 1);
    }
  }

  /** A team of n members yields exactly n(n-1)/2 pairs. */
  lemma CombinationsLength<T>(t: seq<T>)
    ensures |Combinations(t)| == |t| * (|t| - 1) / 2
  {
    PairsBeforeLength(t, |t|);
  }

  lemma {:induction false} PairsBeforeMember<T>(t: seq<T>, i: nat, p: (T, T))
    requires i <= |t|
    ensures p in PairsBefore(t, i) <==> exists a, b :: 0 <= a < i && a < b < |t| && p == (t[a], t[b])
  {
    if i > 0 {
      PairsBeforeMember(t, i - 1, p);
      var row := Row(t, i - 1);
      if p in row {
        var k :| 0 <= k < |row| && row[k] == p;
        assert p == (t[i - 1], t[i + k]);
      }
      if exists a, b :: 0 <= a < i && a < b < |t| && p == (t[a], t[b]) {
        var a, b :| 0 <= a < i && a < b < |t| && p == (t[a], t[b]);
        if a == i - 1 {
          assert row[b - i] == p;
        }
      }
    }
  }

  /** The listing holds exactly the pairs of an earlier and a later member. */
  lemma CombinationsMember<T>(t: seq<T>, p: (T, T))
    ensures p in Combinations(t) <==> exists a, b :: 0 <= a < b < |t| && p == (t[a], t[b])
  {
    PairsBeforeMember(t, |t|, p);
  }

  /** A list of at most one element has no pairs. */
  lemma CombinationsOfShort<T>(t: seq<T>)
    requires |t| <= 1
    ensures Combinations(t) == []
  {
    CombinationsLength(t);
  }

  /** `_generate_binary_collaborations`: the nested loops over i < j. */
  method BinaryCollaborations<T>(team: seq<T>) returns (pairs: seq<(T, T)>)
    ensures pairs == Combinations(team)
  {
    pairs := [];
    var i := 0;
    while i + 1 < |team|
      invariant i <= |team|
      invariant pairs == PairsBefore(team, i)
    {
      var j := i + 1;
      ghost var row := Row(team, i);
      while j < |team|
        invariant i + 1 <= j <= |team|
        invariant pairs == PairsBefore(team, i) + row[..j - i - 1]
      {
        assert row[..j - i] == row[..j - i - 1] + [(team[i], team[j])];
        pairs := pairs + [(team[i], team[j])];
        j := j + 1;
      }
      assert row[..j - i - 1] == row;
      i := i + 1;
    }
    // The last row (i = |team| - 1) is empty, so stopping one row early
    // lists the same pairs.
    if |team| > 0 {
      assert PairsBefore(team, |team|) == PairsBefore(team, |team| - 1) + [];
    }
  }

  // ---------------------------------------------------------------------
  // Coalescing by unordered pair

  /** `p` and `q` are the same unordered pair, in either orientation. */
  predicate Same<T(==)>(p: (T, T), q: (T, T))
  {
    (p.0 == q.0 && p.1 == q.1) || (p.0 == q.1 && p.1 == q.0)
  }

  /** Total weight of the items whose pair is `key`, in either orientation. */
  function PairWeight<T(==)>(items: seq<((T, T), int)>, key: (T, T)): int
  {
    if items == [] then 0
    else
      var last := items[|items| - 1];
      PairWeight(items[..|items| - 1], key) + (if Same(last.0, key) then last.1 else 0)
  }

  /** Some key is the unordered pair `p`. */
  predicate HasMatch<T(==)>(keys: seq<(T, T)>, p: (T, T))
  {
    exists j :: 0 <= j < |keys| && Same(keys[j], p)
  }

  /** The dictionary keys in insertion order: an item opens a new key, in its
      own orientation, only when neither orientation is a key yet. */
  function FirstSeenKeys<T(==)>(items: seq<((T, T), int)>): seq<(T, T)>
  {
    if items == [] then []
    else
      var keys := FirstSeenKeys(items[..|items| - 1]);
      var p := items[|items| - 1].0;
      if HasMatch(keys, p) then keys else keys + [p]
  }

  /** No two keys are the same unordered pair. */
  predicate UnorderedDistinct<T(==)>(keys: seq<(T, T)>)
  {
    forall i, j :: 0 <= i < j < |keys| ==> !Same(keys[i], keys[j])
  }

  function Total<T>(items: seq<((T, T), int)>): int
  {
    if items == [] then 0 else Total(items[..|items| - 1]) + items[|items| - 1].1
  }

  /** Sum over `keys` of the weight coalesced under each key. */
  function KeyTotal<T(==)>(items: seq<((T, T), int)>, keys: seq<(T, T)>): int
  {
    if keys == [] then 0
    else KeyTotal(items, keys[..|keys| - 1]) + PairWeight(items, keys[|keys| - 1])
  }

  /** No two keys of the dictionary are the same unordered pair. */
  lemma {:induction false} FirstSeenKeysDistinct<T>(items: seq<((T, T), int)>)
    ensures UnorderedDistinct(FirstSeenKeys(items))
  {
    if items != [] {
      var init := items[..|items| - 1];
      FirstSeenKeysDistinct(init);
    }
  }

  /** Every item's pair is, in one orientation or the other, a key. */
  lemma {:induction false} FirstSeenKeysCover<T>(items: seq<((T, T), int)>, t: nat)
    requires t < |items|
    ensures HasMatch(FirstSeenKeys(items), items[t].0)
  {
    var init := items[..|items| - 1];
    var keys := FirstSeenKeys(init);
    var p := items[|items| - 1].0;
    if t < |items| - 1 {
      FirstSeenKeysCover(init, t);
      assert items[t] == init[t];
      var j :| 0 <= j < |keys| && Same(keys[j], init[t].0);
      assert FirstSeenKeys(items)[j] == keys[j];
    } else if !HasMatch(keys, p) {
      assert FirstSeenKeys(items)[|keys|] == p;
    }
  }

  /** Each key is the pair of an item, and no earlier item has the same
      unordered pair: the key keeps the orientation seen first. */
  lemma {:induction false} FirstSeenKeysAreFirst<T>(items: seq<((T, T), int)>, i: nat)
    requires i < |FirstSeenKeys(items)|
    ensures exists t :: 0 <= t < |items| && items[t].0 == FirstSeenKeys(items)[i]
              && forall s :: 0 <= s < t ==> !Same(items[s].0, items[t].0)
  {
    var init := items[..|items| - 1];
    var keys := FirstSeenKeys(init);
    if i < |keys| {
      FirstSeenKeysAreFirst(init, i);
      var t :| 0 <= t < |init| && init[t].0 == keys[i]
                && forall s :: 0 <= s < t ==> !Same(init[s].0, init[t].0);
      assert items[t] == init[t];
      forall s | 0 <= s < t ensures !Same(items[s].0, items[t].0) {
        assert items[s] == init[s];
      }
    } else {
      var t := |items| - 1;
      var p := items[t].0;
      forall s | 0 <= s < t ensures !Same(items[s].0, p) {
        assert items[s] == init[s];
        FirstSeenKeysCover(init, s);
        var j :| 0 <= j < |keys| && Same(keys[j], init[s].0);
      }
    }
  }

  lemma {:induction false} PairWeightOfUnseen<T>(items: seq<((T, T), int)>, key: (T, T))
    requires forall t :: 0 <= t < |items| ==> !Same(items[t].0, key)
    ensures PairWeight(items, key) == 0
  {
    if items != [] {
      PairWeightOfUnseen(items[..|items| - 1], key);
    }
  }

  lemma PairWeightAppend<T>(items: seq<((T, T), int)>, it: ((T, T), int), key: (T, T))
    ensures PairWeight(items + [it], key) == PairWeight(items, key) + (if Same(it.0, key) then it.1 else 0)
  {
    assert (items + [it])[..|items|] == items;
  }

  /** Adding one item raises the key total by its weight when some key matches it. */
  lemma {:induction false} KeyTotalAppendItem<T>(items: seq<((T, T), int)>, it: ((T, T), int), keys: seq<(T, T)>)
    requires UnorderedDistinct(keys)
    ensures KeyTotal(items + [it], keys) == KeyTotal(items, keys) + (if HasMatch(keys, it.0) then it.1 else 0)
  {
    if keys != [] {
      var init := keys[..|keys| - 1];
      var last := keys[|keys| - 1];
      KeyTotalAppendItem(items, it, init);
      PairWeightAppend(items, it, last);
      if HasMatch(keys, it.0) {
        var j :| 0 <= j < |keys| && Same(keys[j], it.0);
        if j < |keys| - 1 {
          assert init[j] == keys[j];
          assert !Same(keys[j], last);
        }
      } else {
        assert !Same(last, it.0);
      }
    }
  }

  lemma KeyTotalAppendKey<T>(items: seq<((T, T), int)>, keys: seq<(T, T)>, p: (T, T))
    ensures KeyTotal(items, keys + [p]) == KeyTotal(items, keys) + PairWeight(items, p)
  {
    assert (keys + [p])[..|keys|] == keys;
  }

  /** Coalescing conserves weight: the key weights add up to the item weights. */
  lemma {:induction false} CoalesceConservesWeight<T>(items: seq<((T, T), int)>)
    ensures KeyTotal(items, FirstSeenKeys(items)) == Total(items)
  {
    if items != [] {
      var init := items[..|items| - 1];
      var it := items[|items| - 1];
      assert items == init + [it];
      var keys := FirstSeenKeys(init);
      CoalesceConservesWeight(init);
      FirstSeenKeysDistinct(init);
      KeyTotalAppendItem(init, it, keys);
      if !HasMatch(keys, it.0) {
        KeyTotalAppendKey(items, keys, it.0);
        forall t | 0 <= t < |init| ensures !Same(init[t].0, it.0) {
          FirstSeenKeysCover(init, t);
          var j :| 0 <= j < |keys| && Same(keys[j], init[t].0);
        }
        PairWeightOfUnseen(init, it.0);
        PairWeightAppend(init, it, it.0);
      }
    }
  }

  /** The dictionary-building loop shared by `_generate_weighted_collaboration`
      and the edge pass of `louvain_reduce`: `(a, b)` is added to an existing
      key `(a, b)`, else to an existing key `(b, a)`, else opens key `(a, b)`. */
  method Coalesce<T(==)>(items: seq<((T, T), int)>) returns (keys: seq<(T, T)>, weight: map<(T, T), int>)
    ensures keys == FirstSeenKeys(items)
    ensures weight.Keys == set k | k in keys
    ensures forall k :: k in weight ==> weight[k] == PairWeight(items, k)
  {
    keys, weight := [], map[];
    for i := 0 to |items|
      invariant keys == FirstSeenKeys(items[..i])
      invariant weight.Keys == set k | k in keys
      invariant forall k :: k in weight ==> weight[k] == PairWeight(items[..i], k)
    {
      var a, b, w := items[i].0.0, items[i].0.1, items[i].1;
      assert items[..i + 1] == items[..i] + [items[i]];
      ghost var before := weight;
      FirstSeenKeysDistinct(items[..i]);
      if (a, b) in weight {
        weight := weight[(a, b) := weight[(a, b)] + w];
        assert Same(items[i].0, (a, b));
      } else if (b, a) in weight {
        weight := weight[(b, a) := weight[(b, a)] + w];
        assert Same(items[i].0, (b, a));
      } else {
        weight := weight[(a, b) := w];
        keys := keys + [(a, b)];
        PairWeightOfUnseenKey(items[..i], (a, b));
      }
      forall k | k in weight ensures weight[k] == PairWeight(items[..i + 1], k) {
        PairWeightAppend(items[..i], items[i], k);
        if k in before && Same(items[i].0, k) {
          assert k == (a, b) || k == (b, a);
        }
      }
    }
    assert items[..|items|] == items;
  }

  /** A pair that matches no key yet has received no weight. */
  lemma PairWeightOfUnseenKey<T>(items: seq<((T, T), int)>, p: (T, T))
    requires !HasMatch(FirstSeenKeys(items), p)
    ensures PairWeight(items, p) == 0
    ensures !HasMatch(FirstSeenKeys(items), (p.1, p.0))
  {
    var keys := FirstSeenKeys(items);
    forall t | 0 <= t < |items| ensures !Same(items[t].0, p) {
      FirstSeenKeysCover(items, t);
      var j :| 0 <= j < |keys| && Same(keys[j], items[t].0);
    }
    PairWeightOfUnseen(items, p);
    if HasMatch(keys, (p.1, p.0)) {
      var j :| 0 <= j < |keys| && Same(keys[j], (p.1, p.0));
      assert Same(keys[j], p);
    }
  }

  /** With nonnegative weights, every matching item contributes in full. */
  lemma {:induction false} PairWeightAtLeast<T>(items: seq<((T, T), int)>, t: nat, key: (T, T))
    requires forall s :: 0 <= s < |items| ==> items[s].1 >= 0
    requires t < |items| && Same(items[t].0, key)
    ensures PairWeight(items, key) >= items[t].1
  {
    var init := items[..|items| - 1];
    if t == |items| - 1 {
      PairWeightNonneg(init, key);
    } else {
      PairWeightAtLeast(init, t, key);
    }
  }

  lemma {:induction false} PairWeightNonneg<T>(items: seq<((T, T), int)>, key: (T, T))
    requires forall s :: 0 <= s < |items| ==> items[s].1 >= 0
    ensures PairWeight(items, key) >= 0
  {
    if items != [] {
      PairWeightNonneg(items[..|items| - 1], key);
    }
  }

  /** When every item weighs at least 1, so does every key. */
  lemma KeysWeighAtLeastOne<T>(items: seq<((T, T), int)>)
    requires forall s :: 0 <= s < |items| ==> items[s].1 >= 1
    ensures forall i :: 0 <= i < |FirstSeenKeys(items)| ==> PairWeight(items, FirstSeenKeys(items)[i]) >= 1
  {
    forall i | 0 <= i < |FirstSeenKeys(items)| ensures PairWeight(items, FirstSeenKeys(items)[i]) >= 1 {
      FirstSeenKeysAreFirst(items, i);
      var t :| 0 <= t < |items| && items[t].0 == FirstSeenKeys(items)[i]
        && forall s :: 0 <= s < t ==> !Same(items[s].0, items[t].0);
      PairWeightAtLeast(items, t, FirstSeenKeys(items)[i]);
    }
  }
}
