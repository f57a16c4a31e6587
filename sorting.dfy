/**
 * Python's `sorted(xs, key=w, reverse=True)` and `list.sort(key=w, reverse=True)`
 * on an integer key: a stable sort into non-increasing key order, so elements
 * with equal keys keep their input order. `analyze_variable_usage` and
 * `extract_common_phrases` both rely on it to order their counts.
 */
module Sorting {

  /** Weights never increase along `s`. */
  predicate SortedDesc<T>(s: seq<T>, w: T -> int) {
    forall i, j :: 0 <= i < j < |s| ==> w(s[i]) >= w(s[j])
  }

  /** Put `x` after every element of `s` whose weight is at least its own. */
  function InsertDesc<T>(s: seq<T>, x: T, w: T -> int): seq<T> {
    if s == [] then [x]
    else if w(s[0]) >= w(x) then [s[0]] + InsertDesc(s[1..], x, w)
    else [x] + s
  }

  /** Stable sort by non-increasing weight: insert the elements one by one in input order. */
  function SortDesc<T>(xs: seq<T>, w: T -> int): seq<T> {
    if xs == [] then [] else InsertDesc(SortDesc(xs[..|xs| - 1], w), xs[|xs| - 1], w)
  }

  /** The elements of `s` whose weight is `v`, in order. */
  function WithWeight<T>(s: seq<T>, w: T -> int, v: int): seq<T> {
    if s == [] then [] else (if w(s[0]) == v then [s[0]] else []) + WithWeight(s[1..], w, v)
  }

  lemma {:induction false} InsertDescPermutes<T>(s: seq<T>, x: T, w: T -> int)
    ensures multiset(InsertDesc(s, x, w)) == multiset(s) + multiset{x}
  {
    if s != [] && w(s[0]) >= w(x) {
      InsertDescPermutes(s[1..], x, w);
      assert s == [s[0]] + s[1..];
    }
  }

  lemma {:induction false} InsertDescSorted<T>(s: seq<T>, x: T, w: T -> int)
    requires SortedDesc(s, w)
    ensures SortedDesc(InsertDesc(s, x, w), w)
  {
    if s != [] && w(s[0]) >= w(x) {
      var rest := s[1..];
      var r := InsertDesc(rest, x, w);
      InsertDescSorted(rest, x, w);
      assert forall k :: 0 <= k < |rest| ==> w(rest[k]) <= w(s[0]) by {
        forall k | 0 <= k < |rest| ensures w(rest[k]) <= w(s[0]) {
          assert rest[k] == s[k + 1];
        }
      }
      InsertDescBelow(rest, x, w, w(s[0]));
      ConsSorted(s[0], r, w);
    }
  }

  /** Inserting below a bound every element respects keeps every element below it. */
  lemma {:induction false} InsertDescBelow<T>(s: seq<T>, x: T, w: T -> int, bound: int)
    requires forall k :: 0 <= k < |s| ==> w(s[k]) <= bound
    requires w(x) <= bound
    ensures forall k :: 0 <= k < |InsertDesc(s, x, w)| ==> w(InsertDesc(s, x, w)[k]) <= bound
  {
    if s != [] && w(s[0]) >= w(x) {
      var rest := s[1..];
      assert forall k :: 0 <= k < |rest| ==> w(rest[k]) <= bound by {
        forall k | 0 <= k < |rest| ensures w(rest[k]) <= bound {
          assert rest[k] == s[k + 1];
        }
      }
      InsertDescBelow(rest, x, w, bound);
      var out := InsertDesc(s, x, w);
      forall k | 0 <= k < |out| ensures w(out[k]) <= bound {
        if k > 0 {
          assert out[k] == InsertDesc(rest, x, w)[k - 1];
        }
      }
    }
  }

  /** A sorted list stays sorted behind an element at least as heavy as all of it. */
  lemma ConsSorted<T>(y: T, r: seq<T>, w: T -> int)
    requires SortedDesc(r, w)
    requires forall k :: 0 <= k < |r| ==> w(r[k]) <= w(y)
    ensures SortedDesc([y] + r, w)
  {
    var out := [y] + r;
    forall i, j | 0 <= i < j < |out| ensures w(out[i]) >= w(out[j]) {
      assert out[j] == r[j - 1];
      if i > 0 {
        assert out[i] == r[i - 1];
      }
    }
  }

  /** The sort is a permutation of its input. */
  lemma {:induction false} SortDescPermutes<T>(xs: seq<T>, w: T -> int)
    ensures multiset(SortDesc(xs, w)) == multiset(xs)
  {
    if xs != [] {
      var init := xs[..|xs| - 1];
      SortDescPermutes(init, w);
      InsertDescPermutes(SortDesc(init, w), xs[|xs| - 1], w);
      assert xs == init + [xs[|xs| - 1]];
    }
  }

  /** The sort orders by non-increasing weight. */
  lemma {:induction false} SortDescSorted<T>(xs: seq<T>, w: T -> int)
    ensures SortedDesc(SortDesc(xs, w), w)
  {
    if xs != [] {
      SortDescSorted(xs[..|xs| - 1], w);
      InsertDescSorted(SortDesc(xs[..|xs| - 1], w), xs[|xs| - 1], w);
    }
  }

  lemma {:induction false} WithWeightAppend<T>(a: seq<T>, b: seq<T>, w: T -> int, v: int)
    ensures WithWeight(a + b, w, v) == WithWeight(a, w, v) + WithWeight(b, w, v)
  {
    if a != [] {
      WithWeightAppend(a[1..], b, w, v);
      assert (a + b)[1..] == a[1..] + b;
    } else {
      assert a + b == b;
    }
  }

  lemma {:induction false} WithWeightNone<T>(s: seq<T>, w: T -> int, v: int)
    requires forall k :: 0 <= k < |s| ==> w(s[k]) < v
    ensures WithWeight(s, w, v) == []
  {
    if s != [] {
      WithWeightNone(s[1..], w, v);
    }
  }

  /** Inserting `x` into a sorted list puts it after every element of equal weight. */
  lemma {:induction false} InsertDescStable<T>(s: seq<T>, x: T, w: T -> int, v: int)
    requires SortedDesc(s, w)
    ensures WithWeight(InsertDesc(s, x, w), w, v) == WithWeight(s, w, v) + (if w(x) == v then [x] else [])
  {
    if s == [] {
      WithWeightCons(x, [], w, v);
    } else if w(s[0]) >= w(x) {
      SortedTail(s, w);
      InsertDescStable(s[1..], x, w, v);
      WithWeightCons(s[0], InsertDesc(s[1..], x, w), w, v);
    } else {
      WithWeightCons(x, s, w, v);
      if w(x) == v {
        WithWeightNone(s, w, v);
      }
    }
  }

  lemma WithWeightCons<T>(y: T, r: seq<T>, w: T -> int, v: int)
    ensures WithWeight([y] + r, w, v) == (if w(y) == v then [y] else []) + WithWeight(r, w, v)
  {
    assert ([y] + r)[1..] == r;
  }

  lemma SortedTail<T>(s: seq<T>, w: T -> int)
    requires s != [] && SortedDesc(s, w)
    ensures SortedDesc(s[1..], w)
  {
    forall i, j | 0 <= i < j < |s[1..]| ensures w(s[1..][i]) >= w(s[1..][j]) {
      assert s[1..][i] == s[i + 1] && s[1..][j] == s[j + 1];
    }
  }

  /**
   * Stability: for every weight, the elements of that weight come out in
   * their input order.
   */
  lemma {:induction false} SortDescStable<T>(xs: seq<T>, w: T -> int, v: int)
    ensures WithWeight(SortDesc(xs, w), w, v) == WithWeight(xs, w, v)
  {
    if xs != [] {
      var init := xs[..|xs| - 1];
      SortDescStable(init, w, v);
      SortDescSorted(init, w);
      InsertDescStable(SortDesc(init, w), xs[|xs| - 1], w, v);
      WithWeightSnoc(xs, w, v);
    }
  }

  lemma WithWeightSnoc<T>(xs: seq<T>, w: T -> int, v: int)
    requires xs != []
    ensures var x := xs[|xs| - 1];
            WithWeight(xs, w, v) == WithWeight(xs[..|xs| - 1], w, v) + (if w(x) == v then [x] else [])
  {
    var x := xs[|xs| - 1];
    assert xs == xs[..|xs| - 1] + [x];
    WithWeightAppend(xs[..|xs| - 1], [x], w, v);
    assert WithWeight([x], w, v) == (if w(x) == v then [x] else []) + WithWeight([x][1..], w, v);
  }
}
