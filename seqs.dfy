/**
 * The one list-building shape the Python loops share: walk a list and append
 * zero or more results per element (`for x in xs: ... out.append(...)`).
 */
module Seqs {

  /** The concatenation, in order, of what `f` yields for each element of `xs`. */
  function FlatMap<A, B>(f: A -> seq<B>, xs: seq<A>): seq<B> {
    if xs == [] then [] else FlatMap(f, xs[..|xs| - 1]) + f(xs[|xs| - 1])
  }

  /** One more loop iteration appends what the new element yields. */
  lemma FlatMapSnoc<A, B>(f: A -> seq<B>, xs: seq<A>, x: A)
    ensures FlatMap(f, xs + [x]) == FlatMap(f, xs) + f(x)
  {
    assert (xs + [x])[..|xs|] == xs;
  }

  /** Walking a concatenation yields the results of the parts, in order. */
  lemma {:induction false} FlatMapAppend<A, B>(f: A -> seq<B>, xs: seq<A>, ys: seq<A>)
    ensures FlatMap(f, xs + ys) == FlatMap(f, xs) + FlatMap(f, ys)
    decreases |ys|
  {
    if ys == [] {
      assert xs + ys == xs;
    } else {
      var ys' := ys[..|ys| - 1];
      var y := ys[|ys| - 1];
      assert xs + ys == (xs + ys') + [y];
      assert ys == ys' + [y];
      FlatMapSnoc(f, xs + ys', y);
      FlatMapSnoc(f, ys', y);
      FlatMapAppend(f, xs, ys');
      assert (FlatMap(f, xs) + FlatMap(f, ys')) + f(y) == FlatMap(f, xs) + (FlatMap(f, ys') + f(y));
    }
  }

  /** A result occurs exactly when some element yields it. */
  lemma {:induction false} FlatMapMember<A, B>(f: A -> seq<B>, xs: seq<A>, y: B)
    ensures y in FlatMap(f, xs) <==> exists i :: 0 <= i < |xs| && y in f(xs[i])
  {
    if xs != [] {
      var n := |xs| - 1;
      var init := xs[..n];
      FlatMapMember(f, init, y);
      assert FlatMap(f, xs) == FlatMap(f, init) + f(xs[n]);
      if y in FlatMap(f, init) {
        var i :| 0 <= i < |init| && y in f(init[i]);
        assert xs[i] == init[i];
      }
      forall i | 0 <= i < n && y in f(xs[i]) ensures y in FlatMap(f, init) {
        assert init[i] == xs[i];
      }
    }
  }

  /** The first `i + 1` elements are the first `i` followed by element `i`. */
  lemma TakeSnoc<T>(s: seq<T>, i: nat)
    requires i < |s|
    ensures s[..i + 1] == s[..i] + [s[i]]
  {
  }

  /** A slice is the concatenation of its two halves around any cut point. */
  lemma SliceSplit<T>(s: seq<T>, a: nat, b: nat, c: nat)
    requires a <= b <= c <= |s|
    ensures s[a..c] == s[a..b] + s[b..c]
  {
  }

  /** A slice that opens with `o` and closes with `c` is `o`, the middle and `c`. */
  lemma Framed<T>(s: seq<T>, a: nat, b: nat, c: nat, d: nat, o: seq<T>, z: seq<T>)
    requires a <= b <= c <= d <= |s| && s[a..b] == o && s[c..d] == z
    ensures s[a..d] == o + s[b..c] + z
  {
    SliceSplit(s, a, b, c);
    SliceSplit(s, a, c, d);
  }

  /** Where the three parts of `o + m + z` sit. */
  lemma ThreeParts<T>(o: seq<T>, m: seq<T>, z: seq<T>)
    ensures var s := o + m + z;
            s[0..|o|] == o && s[|o|..] == m + z
            && s[|o|..|o| + |m|] == m && s[|o| + |m|..|o| + |m| + |z|] == z
  {
  }

  /** A non-empty sequence is its head followed by its tail. */
  lemma HeadTail<T>(s: seq<T>)
    requires s != []
    ensures s == [s[0]] + s[1..]
  {
  }

  /** A sequence is what comes before position `t`, the element at `t`, and what follows. */
  lemma SplitAround<T>(s: seq<T>, t: nat)
    requires t < |s|
    ensures s == s[..t] + ([s[t]] + s[t + 1..])
  {
  }

  lemma ConcatAssoc<T>(a: seq<T>, b: seq<T>, c: seq<T>)
    ensures (a + b) + c == a + (b + c)
  {
  }

  lemma FlatMapSingle<A, B>(f: A -> seq<B>, x: A)
    ensures FlatMap(f, [x]) == f(x)
  {
    assert [x][..0] == [];
  }

  /** The pieces one after the other. */
  function Concat<T>(pieces: seq<seq<T>>): seq<T> {
    FlatMap((p: seq<T>) => p, pieces)
  }

  lemma ConcatCons<T>(p: seq<T>, pieces: seq<seq<T>>)
    ensures Concat([p] + pieces) == p + Concat(pieces)
  {
    FlatMapAppend((x: seq<T>) => x, [p], pieces);
    FlatMapSingle((x: seq<T>) => x, p);
  }

  lemma TakeTake<T>(s: seq<T>, i: nat, j: nat)
    requires i <= j <= |s|
    ensures s[..j][..i] == s[..i]
  {
  }
}
