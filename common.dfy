/** Small shared vocabulary: optional values, results, sums and
    distinctness of sequences, flattening of lists of lists. */
module Common {

  datatype Option<T> = None | Some(value: T)

  datatype Result<T, E> = Success(value: T) | Failure(error: E)

  /** Sum of a sequence of reals, accumulated from the front like a loop. */
  function Sum(s: seq<real>): real
  {
    if s == [] then 0.0 else Sum(s[..|s| - 1]) + s[|s| - 1]
  }

  /** Sum of a sequence of integers, accumulated from the front. */
  function SumInt(s: seq<int>): int
  {
    if s == [] then 0 else SumInt(s[..|s| - 1]) + s[|s| - 1]
  }

  lemma SumAppend(s: seq<real>, x: real)
    ensures Sum(s + [x]) == Sum(s) + x
  {
    assert (s + [x])[..|s|] == s;
  }

  lemma SumIntAppend(s: seq<int>, x: int)
    ensures SumInt(s + [x]) == SumInt(s) + x
  {
    assert (s + [x])[..|s|] == s;
  }

  /** Sums are monotone under entrywise comparison. */
  lemma {:induction false} SumMono(s: seq<real>, u: seq<real>)
    requires |s| == |u|
    requires forall t :: 0 <= t < |s| ==> s[t] >= u[t]
    ensures Sum(s) >= Sum(u)
  {
    if s != [] {
      SumMono(s[..|s| - 1], u[..|u| - 1]);
    }
  }

  /** A constant factor comes out of a sum. */
  lemma {:induction false} SumScale(s: seq<real>, u: seq<real>, c: real)
    requires |s| == |u|
    requires forall t :: 0 <= t < |s| ==> u[t] == c * s[t]
    ensures Sum(u) == c * Sum(s)
  {
    if s != [] {
      SumScale(s[..|s| - 1], u[..|u| - 1], c);
    }
  }

  lemma {:induction false} SumNonneg(s: seq<real>)
    requires forall t :: 0 <= t < |s| ==> s[t] >= 0.0
    ensures Sum(s) >= 0.0
  {
    if s != [] {
      SumNonneg(s[..|s| - 1]);
    }
  }

  /** A prefix of a nonnegative sequence sums to at most the whole. */
  lemma {:induction false} SumPrefixBound(s: seq<real>, k: nat)
    requires k <= |s|
    requires forall t :: 0 <= t < |s| ==> s[t] >= 0.0
    ensures Sum(s[..k]) <= Sum(s)
  {
    if k < |s| {
      var init := s[..|s| - 1];
      assert s[..k] == init[..k];
      SumPrefixBound(init, k);
    } else {
      assert s[..k] == s;
    }
  }

  predicate Distinct<T(==)>(s: seq<T>)
  {
    forall i, j :: 0 <= i < j < |s| ==> s[i] != s[j]
  }

  /** Appending a new element to a distinct list keeps it distinct. */
  lemma DistinctSnoc<T>(s: seq<T>, x: T)
    requires Distinct(s) && forall t :: 0 <= t < |s| ==> s[t] != x
    ensures Distinct(s + [x])
  {
  }

  /** `s` lists the elements of `st`, each exactly once, in some order. */
  predicate IsListing<T(==)>(s: seq<T>, st: set<T>)
  {
    Distinct(s) && (set x | x in s) == st
  }

  lemma {:induction false} ListingExists<T>(st: set<T>) returns (s: seq<T>)
    ensures IsListing(s, st)
    decreases st
  {
    if st == {} {
      s := [];
    } else {
      var x :| x in st;
      var rest := ListingExists(st - {x});
      s := [x] + rest;
      assert (set y | y in s) == {x} + (set y | y in rest);
    }
  }

  /** A non-empty set has an element. */
  lemma Witness<T>(s: set<T>) returns (x: T)
    requires s != {}
    ensures x in s
  {
    x :| x in s;
  }

  /** A list of the elements of a set, in an unspecified order. */
  method ToList<T>(s: set<T>) returns (xs: seq<T>)
    ensures IsListing(xs, s)
  {
    xs := [];
    var rest := s;
    while rest != {}
      invariant rest <= s
      invariant Distinct(xs) && (set x | x in xs) == s - rest
      decreases rest
    {
      ghost var someone := Witness(rest);
      var x :| x in rest;
      assert (set y | y in xs + [x]) == (set y | y in xs) + {x};
      xs := xs + [x];
      rest := rest - {x};
    }
  }

  /** Concatenation of a list of lists, in order. */
  function Flatten<T>(ss: seq<seq<T>>): seq<T>
  {
    if ss == [] then [] else Flatten(ss[..|ss| - 1]) + ss[|ss| - 1]
  }

  lemma FlattenAppend<T>(ss: seq<seq<T>>, s: seq<T>)
    ensures Flatten(ss + [s]) == Flatten(ss) + s
  {
    assert (ss + [s])[..|ss|] == ss;
  }

  lemma {:induction false} FlattenMember<T>(ss: seq<seq<T>>, x: T)
    ensures x in Flatten(ss) <==> exists k :: 0 <= k < |ss| && x in ss[k]
  {
    if ss != [] {
      var init := ss[..|ss| - 1];
      FlattenMember(init, x);
      if x in Flatten(ss) && x !in ss[|ss| - 1] {
        var k :| 0 <= k < |init| && x in init[k];
        assert ss[k] == init[k];
      }
      if exists k :: 0 <= k < |ss| && x in ss[k] {
        var k :| 0 <= k < |ss| && x in ss[k];
        if k < |ss| - 1 {
          assert init[k] == ss[k];
        }
      }
    }
  }

  /** Replacing one list by a list with one more element adds that element. */
  lemma {:induction false} FlattenUpdateAppend<T>(ss: seq<seq<T>>, b: nat, x: T)
    requires b < |ss|
    ensures multiset(Flatten(ss[b := ss[b] + [x]])) == multiset(Flatten(ss)) + multiset{x}
  {
    var last := |ss| - 1;
    var ss' := ss[b := ss[b] + [x]];
    var init := ss[..last];
    assert Flatten(ss) == Flatten(init) + ss[last];
    if b == last {
      assert ss'[..last] == init;
      assert Flatten(ss') == Flatten(init) + (ss[last] + [x]);
    } else {
      var init' := init[b := init[b] + [x]];
      assert ss'[..last] == init';
      assert Flatten(ss') == Flatten(init') + ss[last];
      FlattenUpdateAppend(init, b, x);
    }
  }

  /** The naturals below `n`, as a set. */
  function Below(n: nat): (r: set<nat>)
    ensures |r| == n
    ensures forall x: nat :: x in r <==> x < n
  {
    if n == 0 then {} else Below(n - 1) + {n - 1}
  }

  /** A distinct list of naturals below `n` has at most `n` elements. */
  lemma DistinctBelowBound(s: seq<nat>, n: nat)
    requires Distinct(s)
    requires forall x :: x in s ==> x < n
    ensures |s| <= n
  {
    var st := set x | x in s;
    assert st <= Below(n);
    DistinctCard(s);
    SubsetCard(st, Below(n));
  }

  lemma {:induction false} DistinctCard<T>(s: seq<T>)
    requires Distinct(s)
    ensures |set x | x in s| == |s|
  {
    if s != [] {
      var init := s[..|s| - 1];
      DistinctCard(init);
      assert (set x | x in s) == (set x | x in init) + {s[|s| - 1]};
      assert s[|s| - 1] !in init;
    }
  }

  lemma SubsetCard<T>(a: set<T>, b: set<T>)
    requires a <= b
    ensures |a| <= |b|
  {
    assert b == a + (b - a);
  }

  // ---------------------------------------------------------------------
  // Partitions of the node range 0..n-1 into lists of nodes

  /** Every node a community lists is a valid index below `n`. */
  predicate InRange(cs: seq<seq<int>>, n: nat)
  {
    forall c, t :: 0 <= c < |cs| && 0 <= t < |cs[c]| ==> 0 <= cs[c][t] < n
  }

  /** The node range `[0, 1, ..., n - 1]`. */
  function Range(n: nat): (r: seq<int>)
    ensures |r| == n && forall i :: 0 <= i < n ==> r[i] == i
  {
    seq(n, i => i)
  }

  /** No community is empty. */
  predicate AllNonEmpty(cs: seq<seq<int>>)
  {
    forall c :: 0 <= c < |cs| ==> cs[c] != []
  }

  /** `cs` lists every node below `n` exactly once, in non-empty communities. */
  predicate IsPartition(cs: seq<seq<int>>, n: nat)
  {
    (forall c :: 0 <= c < |cs| ==> cs[c] != [])
    && multiset(Flatten(cs)) == multiset(Range(n))
  }

  lemma RangeCount(n: nat, x: int)
    ensures multiset(Range(n))[x] == if 0 <= x < n then 1 else 0
  {
    if n > 0 {
      assert Range(n) == Range(n - 1) + [n - 1];
      RangeCount(n - 1, x);
    } else {
      assert Range(n) == [];
    }
  }

  /** A node listed by two different communities is counted twice. */
  lemma {:induction false} TwoCommunities(cs: seq<seq<int>>, x: int, c1: nat, c2: nat)
    requires c1 < c2 < |cs| && x in cs[c1] && x in cs[c2]
    ensures multiset(Flatten(cs))[x] >= 2
  {
    var init := cs[..|cs| - 1];
    assert Flatten(cs) == Flatten(init) + cs[|cs| - 1];
    if c2 == |cs| - 1 {
      FlattenMember(init, x);
      assert init[c1] == cs[c1];
    } else {
      assert init[c1] == cs[c1] && init[c2] == cs[c2];
      TwoCommunities(init, x, c1, c2);
    }
  }

  /** In a partition, a node lies in some community iff it is below `n`,
      and in at most one. */
  lemma PartitionMember(cs: seq<seq<int>>, n: nat, x: int)
    requires IsPartition(cs, n)
    ensures (exists c :: 0 <= c < |cs| && x in cs[c]) <==> 0 <= x < n
    ensures forall c1, c2 :: 0 <= c1 < |cs| && 0 <= c2 < |cs| && x in cs[c1] && x in cs[c2] ==> c1 == c2
  {
    RangeCount(n, x);
    FlattenMember(cs, x);
    forall c1, c2 | 0 <= c1 < |cs| && 0 <= c2 < |cs| && x in cs[c1] && x in cs[c2]
      ensures c1 == c2
    {
      if c1 < c2 {
        TwoCommunities(cs, x, c1, c2);
      } else if c2 < c1 {
        TwoCommunities(cs, x, c2, c1);
      }
    }
  }

  lemma PartitionInRange(cs: seq<seq<int>>, n: nat)
    requires IsPartition(cs, n)
    ensures InRange(cs, n)
  {
    forall c, t | 0 <= c < |cs| && 0 <= t < |cs[c]| ensures 0 <= cs[c][t] < n {
      PartitionMember(cs, n, cs[c][t]);
    }
  }

  /** A distinct list holds each of its elements once. */
  lemma {:induction false} DistinctCount<T>(s: seq<T>, x: T)
    requires Distinct(s)
    ensures multiset(s)[x] == if x in s then 1 else 0
  {
    if s != [] {
      var init := s[..|s| - 1];
      assert s == init + [s[|s| - 1]];
      DistinctCount(init, x);
    }
  }

  /** `p` lists the nodes `0 .. n - 1`, each once, in some order (a shuffle
      of the node range). */
  predicate IsOrder(p: seq<int>, n: nat)
  {
    |p| == n && multiset(p) == multiset(Range(n))
  }

  lemma OrderFacts(p: seq<int>, n: nat)
    requires IsOrder(p, n)
    ensures |p| == n && Distinct(p)
    ensures forall t :: 0 <= t < |p| ==> 0 <= p[t] < n
  {
    forall t | 0 <= t < |p| ensures 0 <= p[t] < n {
      assert p[t] in multiset(p);
      RangeCount(n, p[t]);
    }
    forall i, j | 0 <= i < j < |p| ensures p[i] != p[j] {
      if p[i] == p[j] {
        var x := p[i];
        assert p[..j + 1] + p[j + 1..] == p;
        assert p[..j + 1] == p[..j] + [x];
        assert x in p[..j];
        assert multiset(p[..j])[x] >= 1;
        assert multiset(p)[x] >= 2;
        RangeCount(n, x);
      }
    }
  }

  /** One more entry of a prefix adds that entry to its multiset. */
  lemma PrefixCount<T>(s: seq<T>, j: nat)
    requires j < |s|
    ensures s[..j + 1] == s[..j] + [s[j]]
    ensures multiset(s[..j + 1]) == multiset(s[..j]) + multiset{s[j]}
  {
    assert s[..j + 1] == s[..j] + [s[j]];
  }

  lemma OrderEntry(p: seq<int>, n: nat, t: nat)
    requires IsOrder(p, n) && t < |p|
    ensures 0 <= p[t] < n
  {
    assert p[t] in multiset(p);
    RangeCount(n, p[t]);
  }
}
