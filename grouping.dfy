/**
 * Grouping a list by a key while keeping input order: the dictionary of lists
 * that `find_exact_duplicates` builds per hash and the `templates` page builds
 * per page count. Both fill it with "append to the key's list, or start a new
 * list"; this module gives the value that loop must reach and its properties.
 */
module Grouping {

  /** The elements of `xs` whose key is `k`, in input order. */
  function Members<T, K(==)>(xs: seq<T>, key: T -> K, k: K): seq<T> {
    if xs == [] then []
    else Members(xs[..|xs| - 1], key, k) + (if key(xs[|xs| - 1]) == k then [xs[|xs| - 1]] else [])
  }

  /** The keys that occur in `xs`. */
  function Keys<T, K>(xs: seq<T>, key: T -> K): set<K> {
    set i | 0 <= i < |xs| :: key(xs[i])
  }

  /** Each key of `xs` with at least `minSize` members, mapped to those members in input order. */
  function GroupsOf<T, K(==)>(xs: seq<T>, key: T -> K, minSize: nat): map<K, seq<T>> {
    map k | k in Keys(xs, key) && |Members(xs, key, k)| >= minSize :: Members(xs, key, k)
  }

  /** Members of a concatenation: those of the first part come first. */
  lemma {:induction false} MembersAppend<T, K>(a: seq<T>, b: seq<T>, key: T -> K, k: K)
    ensures Members(a + b, key, k) == Members(a, key, k) + Members(b, key, k)
    decreases |b|
  {
    if b == [] {
      assert a + b == a;
    } else {
      var b' := b[..|b| - 1];
      assert (a + b)[..|a + b| - 1] == a + b';
      MembersAppend(a, b', key, k);
    }
  }

  /** An element is a member for `k` exactly when it occurs in `xs` with key `k`. */
  lemma {:induction false} MemberIff<T, K>(xs: seq<T>, key: T -> K, k: K, x: T)
    ensures x in Members(xs, key, k) <==> x in xs && key(x) == k
  {
    if xs != [] {
      var init := xs[..|xs| - 1];
      MemberIff(init, key, k, x);
      assert xs == init + [xs[|xs| - 1]];
    }
  }

  /** A key has members exactly when it occurs in `xs`. */
  lemma {:induction false} MembersNonEmpty<T, K>(xs: seq<T>, key: T -> K, k: K)
    ensures Members(xs, key, k) != [] <==> k in Keys(xs, key)
  {
    if xs != [] {
      var init := xs[..|xs| - 1];
      MembersNonEmpty(init, key, k);
      assert Keys(xs, key) == Keys(init, key) + {key(xs[|xs| - 1])};
    }
  }

  /**
   * One step of the grouping loop: appending `x` adds it at the end of its
   * key's group (starting the group if the key is new) and changes no other group.
   */
  lemma GroupsStep<T, K>(xs: seq<T>, x: T, key: T -> K)
    ensures var g := GroupsOf(xs, key, 1);
            GroupsOf(xs + [x], key, 1)
            == g[key(x) := (if key(x) in g then g[key(x)] else []) + [x]]
  {
    var xs' := xs + [x];
    var g := GroupsOf(xs, key, 1);
    var g' := GroupsOf(xs', key, 1);
    var r := g[key(x) := (if key(x) in g then g[key(x)] else []) + [x]];
    assert xs'[..|xs|] == xs;
    KeysAppend(xs, x, key);
    forall k | k in g' ensures k in r && g'[k] == r[k] {
      assert g'[k] == Members(xs', key, k);
      assert Members(xs', key, k) == Members(xs, key, k) + (if key(x) == k then [x] else []);
      MembersNonEmpty(xs, key, k);
      if k == key(x) {
        if k in g {
          assert g[k] == Members(xs, key, k);
        } else {
          assert Members(xs, key, k) == [];
        }
      } else {
        assert k in g && r[k] == g[k] == Members(xs, key, k);
      }
    }
    forall k | k in r ensures k in g' {
      MembersNonEmpty(xs, key, k);
      MembersNonEmpty(xs', key, k);
    }
    MapExtensionality(g', r);
  }

  lemma MapExtensionality<K, V>(a: map<K, V>, b: map<K, V>)
    requires forall k :: k in a ==> k in b && a[k] == b[k]
    requires forall k :: k in b ==> k in a
    ensures a == b
  {
  }

  lemma KeysAppend<T, K>(xs: seq<T>, x: T, key: T -> K)
    ensures Keys(xs + [x], key) == Keys(xs, key) + {key(x)}
  {
    var xs' := xs + [x];
    forall i | 0 <= i < |xs| ensures key(xs[i]) in Keys(xs', key) {
      assert xs'[i] == xs[i];
    }
    assert key(x) == key(xs'[|xs|]);
    forall k | k in Keys(xs', key) ensures k in Keys(xs, key) + {key(x)} {
      var i :| 0 <= i < |xs'| && key(xs'[i]) == k;
      if i < |xs| { assert xs'[i] == xs[i]; }
    }
  }

  /** At least two members for `k` exactly when `k` is the key of two different positions. */
  lemma {:induction false} TwoMembers<T, K>(xs: seq<T>, key: T -> K, k: K)
    ensures |Members(xs, key, k)| >= 2
            <==> exists i, j :: 0 <= i < j < |xs| && key(xs[i]) == k && key(xs[j]) == k
  {
    if xs != [] {
      var n := |xs| - 1;
      var init := xs[..n];
      TwoMembers(init, key, k);
      MembersNonEmpty(init, key, k);
      if key(xs[n]) == k && |Members(init, key, k)| >= 1 {
        var i :| 0 <= i < |init| && key(init[i]) == k;
        assert key(xs[i]) == k;
      }
      if exists i, j :: 0 <= i < j < |xs| && key(xs[i]) == k && key(xs[j]) == k {
        var i, j :| 0 <= i < j < |xs| && key(xs[i]) == k && key(xs[j]) == k;
        if j < n {
          assert key(init[i]) == k && key(init[j]) == k;
        } else {
          assert key(init[i]) == k;
          assert k in Keys(init, key);
        }
      }
    }
  }

  /**
   * What the grouping promises: each group has at least `minSize` members, all
   * drawn from `xs` and carrying the group's key; an element of `xs` lies in
   * the group of its own key exactly when that key has `minSize` members, and
   * in no other group.
   */
  lemma GroupsOfSpec<T, K>(xs: seq<T>, key: T -> K, minSize: nat)
    requires minSize >= 1
    ensures forall k :: k in GroupsOf(xs, key, minSize) ==> |GroupsOf(xs, key, minSize)[k]| >= minSize
    ensures forall k, x :: k in GroupsOf(xs, key, minSize) && x in GroupsOf(xs, key, minSize)[k] ==>
              x in xs && key(x) == k
    ensures forall x, k :: x in xs && k in GroupsOf(xs, key, minSize) ==>
              (x in GroupsOf(xs, key, minSize)[k] <==> key(x) == k)
    ensures forall x :: x in xs ==>
              (key(x) in GroupsOf(xs, key, minSize) <==> |Members(xs, key, key(x))| >= minSize)
  {
    GroupsLarge(xs, key, minSize);
    GroupsSound(xs, key, minSize);
    GroupsComplete(xs, key, minSize);
    GroupsPresent(xs, key, minSize);
  }

  lemma GroupsLarge<T, K>(xs: seq<T>, key: T -> K, minSize: nat)
    ensures forall k :: k in GroupsOf(xs, key, minSize) ==> |GroupsOf(xs, key, minSize)[k]| >= minSize
  {
    var g := GroupsOf(xs, key, minSize);
    forall k | k in g ensures |g[k]| >= minSize {
      assert g[k] == Members(xs, key, k);
    }
  }

  lemma GroupsSound<T, K>(xs: seq<T>, key: T -> K, minSize: nat)
    ensures forall k, x :: k in GroupsOf(xs, key, minSize) && x in GroupsOf(xs, key, minSize)[k] ==>
              x in xs && key(x) == k
  {
    var g := GroupsOf(xs, key, minSize);
    forall k, x | k in g && x in g[k] ensures x in xs && key(x) == k {
      assert g[k] == Members(xs, key, k);
      MemberIff(xs, key, k, x);
    }
  }

  lemma GroupsComplete<T, K>(xs: seq<T>, key: T -> K, minSize: nat)
    ensures forall x, k :: x in xs && k in GroupsOf(xs, key, minSize) && key(x) == k ==>
              x in GroupsOf(xs, key, minSize)[k]
  {
    var g := GroupsOf(xs, key, minSize);
    forall k, x | k in g && x in xs && key(x) == k ensures x in g[k] {
      assert g[k] == Members(xs, key, k);
      MemberIff(xs, key, k, x);
    }
  }

  lemma GroupsPresent<T, K>(xs: seq<T>, key: T -> K, minSize: nat)
    requires minSize >= 1
    ensures forall x :: x in xs ==>
              (key(x) in GroupsOf(xs, key, minSize) <==> |Members(xs, key, key(x))| >= minSize)
  {
    var g := GroupsOf(xs, key, minSize);
    forall x | x in xs
      ensures key(x) in g <==> |Members(xs, key, key(x))| >= minSize
    {
      var i :| 0 <= i < |xs| && xs[i] == x;
      assert key(x) in Keys(xs, key);
    }
  }

  /**
   * Keeping only the groups of more than one member (the dictionary
   * comprehension over the grouped lists) gives the groups of size at least two.
   */
  lemma GroupsFilter<T, K>(xs: seq<T>, key: T -> K, d: map<K, seq<T>>)
    requires forall k :: k in d <==> k in GroupsOf(xs, key, 1) && |GroupsOf(xs, key, 1)[k]| > 1
    requires forall k :: k in d ==> d[k] == GroupsOf(xs, key, 1)[k]
    ensures d == GroupsOf(xs, key, 2)
  {
    var g1 := GroupsOf(xs, key, 1);
    var g2 := GroupsOf(xs, key, 2);
    forall k | k in d ensures k in g2 && d[k] == g2[k] {
      assert g1[k] == Members(xs, key, k);
    }
    forall k | k in g2 ensures k in d {
      assert g2[k] == Members(xs, key, k);
    }
    MapExtensionality(d, g2);
  }
}
