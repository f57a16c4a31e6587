/**
 * Counting with a dictionary: `if k in counts: counts[k] += 1 else: counts[k] = 1`
 * over a list. A Python dictionary iterates in insertion order, so its keys
 * come out in the order each was first seen. `analyze_variable_usage` counts
 * variable names this way and `extract_common_phrases` counts phrases.
 */
module Tally {
  import opened Grouping
  import opened Seqs

  /** The distinct keys of `xs` in the order they were first seen: the key order of the dictionary. */
  function KeyOrder<T, K(==)>(xs: seq<T>, key: T -> K): seq<K> {
    if xs == [] then []
    else
      var ks := KeyOrder(xs[..|xs| - 1], key);
      if key(xs[|xs| - 1]) in ks then ks else ks + [key(xs[|xs| - 1])]
  }

  /** No key occurs twice. */
  predicate Distinct<K(==)>(ks: seq<K>) {
    forall i, j :: 0 <= i < j < |ks| ==> ks[i] != ks[j]
  }

  /** How often key `k` occurs in `xs`: the dictionary's final count for `k`. */
  function Count<T, K(==)>(xs: seq<T>, key: T -> K, k: K): nat {
    |Members(xs, key, k)|
  }

  /** The dictionary's keys are exactly the keys that occur in `xs`. */
  lemma {:induction false} KeyOrderMember<T, K>(xs: seq<T>, key: T -> K, k: K)
    ensures k in KeyOrder(xs, key) <==> k in Keys(xs, key)
  {
    if xs != [] {
      var init := xs[..|xs| - 1];
      KeyOrderMember(init, key, k);
      KeysAppend(init, xs[|xs| - 1], key);
      assert xs == init + [xs[|xs| - 1]];
    }
  }

  /** Counting one more element adds its key at the end of the key order if it is new. */
  lemma KeyOrderSnoc<T, K>(xs: seq<T>, x: T, key: T -> K)
    ensures KeyOrder(xs + [x], key)
            == if key(x) in KeyOrder(xs, key) then KeyOrder(xs, key) else KeyOrder(xs, key) + [key(x)]
  {
    assert (xs + [x])[..|xs|] == xs;
  }

  /** No key is in the dictionary twice. */
  lemma {:induction false} KeyOrderDistinct<T, K>(xs: seq<T>, key: T -> K)
    ensures Distinct(KeyOrder(xs, key))
  {
    if xs != [] {
      KeyOrderDistinct(xs[..|xs| - 1], key);
    }
  }

  /** Insertion order: every occurrence of a later key is preceded by an occurrence of each earlier key. */
  lemma {:induction false} KeyOrderFirstSeen<T, K>(xs: seq<T>, key: T -> K, a: nat, b: nat, j: nat)
    requires a < b < |KeyOrder(xs, key)| && j < |xs| && key(xs[j]) == KeyOrder(xs, key)[b]
    ensures exists i :: 0 <= i < j && key(xs[i]) == KeyOrder(xs, key)[a]
  {
    var n := |xs| - 1;
    var init := xs[..n];
    var ks := KeyOrder(init, key);
    var ka := KeyOrder(xs, key)[a];
    assert ka == ks[a] && ka in ks;
    KeyOrderMember(init, key, ka);
    if j < n && b < |ks| {
      KeyOrderFirstSeen(init, key, a, b, j);
      var i :| 0 <= i < j && key(init[i]) == ka;
      assert xs[i] == init[i];
    } else {
      assert j == n by {
        if j < n {
          assert KeyOrder(xs, key) == ks + [key(xs[n])];
          assert key(init[j]) in Keys(init, key);
          KeyOrderMember(init, key, key(init[j]));
        }
      }
      var i :| 0 <= i < |init| && key(init[i]) == ka;
      assert xs[i] == init[i];
    }
  }

  /** Appending one element adds one to its key's count and leaves every other count alone. */
  lemma CountSnoc<T, K>(xs: seq<T>, x: T, key: T -> K, k: K)
    ensures Count(xs + [x], key, k) == Count(xs, key, k) + (if key(x) == k then 1 else 0)
  {
    assert (xs + [x])[..|xs|] == xs;
  }

  /** The first member for a key is its first occurrence in `xs`. */
  lemma {:induction false} FirstMember<T, K>(xs: seq<T>, key: T -> K, k: K)
    requires Members(xs, key, k) != []
    ensures exists i :: 0 <= i < |xs| && key(xs[i]) == k && Members(xs, key, k)[0] == xs[i]
                        && forall j :: 0 <= j < i ==> key(xs[j]) != k
  {
    var n := |xs| - 1;
    var init := xs[..n];
    if Members(init, key, k) != [] {
      FirstMember(init, key, k);
      var i :| 0 <= i < |init| && key(init[i]) == k && Members(init, key, k)[0] == init[i]
               && forall j :: 0 <= j < i ==> key(init[j]) != k;
      assert xs[i] == init[i];
      forall j | 0 <= j < i ensures key(xs[j]) != k {
        assert xs[j] == init[j];
      }
    } else {
      forall j | 0 <= j < n ensures key(xs[j]) != k {
        assert xs[j] == init[j];
        MemberIff(init, key, k, init[j]);
      }
    }
  }

  /** A key counts at least once exactly when it occurs. */
  lemma CountPositive<T, K>(xs: seq<T>, key: T -> K, k: K)
    ensures Count(xs, key, k) > 0 <==> k in Keys(xs, key)
  {
    MembersNonEmpty(xs, key, k);
  }

  /** The sum of the counts of the keys `ks`. */
  function SumCounts<T, K(==)>(xs: seq<T>, key: T -> K, ks: seq<K>): nat {
    if ks == [] then 0 else Count(xs, key, ks[0]) + SumCounts(xs, key, ks[1..])
  }

  /** How many times `k` occurs in `ks`. */
  function Occurrences<K(==)>(ks: seq<K>, k: K): nat {
    if ks == [] then 0 else (if ks[0] == k then 1 else 0) + Occurrences(ks[1..], k)
  }

  lemma {:induction false} OccurrencesDistinct<K>(ks: seq<K>, k: K)
    requires Distinct(ks) && k in ks
    ensures Occurrences(ks, k) == 1
  {
    if ks[0] == k {
      OccurrencesAbsent(ks[1..], k);
    } else {
      OccurrencesDistinct(ks[1..], k);
    }
  }

  lemma {:induction false} OccurrencesAbsent<K>(ks: seq<K>, k: K)
    requires k !in ks
    ensures Occurrences(ks, k) == 0
  {
    if ks != [] {
      OccurrencesAbsent(ks[1..], k);
    }
  }

  lemma {:induction false} SumCountsSnoc<T, K>(xs: seq<T>, x: T, key: T -> K, ks: seq<K>)
    ensures SumCounts(xs + [x], key, ks) == SumCounts(xs, key, ks) + Occurrences(ks, key(x))
  {
    if ks != [] {
      CountSnoc(xs, x, key, ks[0]);
      SumCountsSnoc(xs, x, key, ks[1..]);
    }
  }

  lemma {:induction false} SumCountsEmpty<T, K>(key: T -> K, ks: seq<K>)
    ensures SumCounts([], key, ks) == 0
  {
    if ks != [] {
      SumCountsEmpty(key, ks[1..]);
    }
  }

  /** Over distinct keys covering every element, the counts add up to the number of elements. */
  lemma {:induction false} SumCountsAll<T, K>(xs: seq<T>, key: T -> K, ks: seq<K>)
    requires Distinct(ks)
    requires forall i :: 0 <= i < |xs| ==> key(xs[i]) in ks
    ensures SumCounts(xs, key, ks) == |xs|
  {
    if xs == [] {
      SumCountsEmpty(key, ks);
    } else {
      var init := xs[..|xs| - 1];
      var x := xs[|xs| - 1];
      SumCountsAll(init, key, ks);
      SumCountsSnoc(init, x, key, ks);
      OccurrencesDistinct(ks, key(x));
      assert xs == init + [x];
    }
  }

  /** The sum of `f` over `s`. */
  function SumOf<T>(s: seq<T>, f: T -> int): int {
    if s == [] then 0 else f(s[0]) + SumOf(s[1..], f)
  }

  lemma {:induction false} SumOfAppend<T>(a: seq<T>, b: seq<T>, f: T -> int)
    ensures SumOf(a + b, f) == SumOf(a, f) + SumOf(b, f)
  {
    if a == [] {
      assert a + b == b;
    } else {
      SumOfAppend(a[1..], b, f);
      assert (a + b)[1..] == a[1..] + b;
    }
  }

  /** Removing the element at `t` removes its term from the sum. */
  lemma SumOfRemove<T>(s: seq<T>, t: nat, f: T -> int)
    requires t < |s|
    ensures SumOf(s, f) == f(s[t]) + SumOf(s[..t] + s[t + 1..], f)
  {
    var before, after := s[..t], s[t + 1..];
    SplitAround(s, t);
    SumOfAppend(before, [s[t]] + after, f);
    SumOfAppend(before, after, f);
    assert SumOf([s[t]] + after, f) == f(s[t]) + SumOf(after, f) by {
      assert ([s[t]] + after)[1..] == after;
    }
  }

  /** An element of the multiset of `b` sits at some position of `b`. */
  lemma PositionOf<T>(b: seq<T>, x: T) returns (t: nat)
    requires x in multiset(b)
    ensures t < |b| && b[t] == x
  {
    t :| 0 <= t < |b| && b[t] == x;
  }

  /** Removing the element at `t` removes one copy of it from the multiset. */
  lemma MultisetRemove<T>(s: seq<T>, t: nat)
    requires t < |s|
    ensures multiset(s[..t] + s[t + 1..]) == multiset(s) - multiset{s[t]}
  {
    assert s == s[..t] + [s[t]] + s[t + 1..];
  }

  /** A sum does not depend on the order of its terms. */
  lemma {:induction false} SumOfPermutation<T>(a: seq<T>, b: seq<T>, f: T -> int)
    requires multiset(a) == multiset(b)
    ensures SumOf(a, f) == SumOf(b, f)
    decreases |a|
  {
    if a == [] {
      assert |b| == |multiset(b)| == 0;
    } else {
      var t := PermutationHead(a, b);
      SumOfPermutation(a[1..], b[..t] + b[t + 1..], f);
      SumOfRemove(b, t, f);
    }
  }

  /** The first element of `a` sits at some position `t` of its permutation `b`, and the rests are permutations. */
  lemma PermutationHead<T>(a: seq<T>, b: seq<T>) returns (t: nat)
    requires a != [] && multiset(a) == multiset(b)
    ensures t < |b| && b[t] == a[0]
    ensures multiset(a[1..]) == multiset(b[..t] + b[t + 1..])
  {
    t := PositionOf(b, a[0]);
    assert multiset(b[..t] + b[t + 1..]) == multiset(b) - multiset{a[0]} by {
      MultisetRemove(b, t);
    }
    assert multiset(a[1..]) == multiset(a) - multiset{a[0]} by {
      assert a == [a[0]] + a[1..];
    }
  }

  /** An element at two positions occurs at least twice in the multiset. */
  lemma MultiplicityTwo<T>(s: seq<T>, a: nat, b: nat)
    requires a < b < |s| && s[a] == s[b]
    ensures multiset(s)[s[a]] >= 2
  {
    assert s == s[..a] + [s[a]] + s[a + 1..b] + [s[b]] + s[b + 1..];
  }

  /** In a list without repeats every element occurs at most once. */
  lemma {:induction false} MultiplicityDistinct<T>(s: seq<T>, x: T)
    requires Distinct(s)
    ensures multiset(s)[x] <= 1
  {
    if s != [] {
      MultiplicityDistinct(s[1..], x);
      assert s == [s[0]] + s[1..];
      if s[0] == x {
        assert x !in s[1..];
      }
    }
  }
}
