/**
 * The skeleton of `find_similar_paragraphs` (utils/analyzer.py): which pairs
 * of paragraphs are compared, in what order, which are skipped, and which are
 * reported with what score. The TF-IDF vectoriser, the cosine similarity of two
 * of its rows, `fuzz.ratio` and the random sample are parameters.
 */
module Similarity {
  import opened Analyzer

  /**
   * What one comparison needs: the paragraphs, their preprocessed texts, the
   * threshold, the cosine similarity of the TF-IDF rows of two paragraphs, and
   * `fuzz.ratio` of two texts (an integer percentage).
   */
  datatype Comparison = Comparison(paragraphs: seq<ParagraphData>, texts: seq<string>, threshold: real,
                                   cosine: (nat, nat) -> real, ratio: (string, string) -> int)

  /** One reported pair, with the input positions of its two paragraphs. */
  datatype SimilarPair = SimilarPair(para1: ParagraphData, para2: ParagraphData, similarity: real,
                                     index1: nat, index2: nat)

  /** The average of the cosine score and the fuzzy score scaled to [0, 1]. */
  function Combined(c: Comparison, i: nat, j: nat): real
    requires i < |c.texts| && j < |c.texts|
  {
    (c.cosine(i, j) + c.ratio(c.texts[i], c.texts[j]) as real / 100.0) / 2.0
  }

  /**
   * The body of the inner loop for paragraphs `i` and `j`: skip equal hashes,
   * then report the pair when the cosine score and the combined score both
   * reach the threshold.
   */
  function PairAt(c: Comparison, i: nat, j: nat): seq<SimilarPair>
    requires |c.texts| == |c.paragraphs| && i < |c.paragraphs| && j < |c.paragraphs|
  {
    if c.paragraphs[i].hash == c.paragraphs[j].hash then []
    else if c.cosine(i, j) < c.threshold then []
    else if Combined(c, i, j) >= c.threshold
    then [SimilarPair(c.paragraphs[i], c.paragraphs[j], Combined(c, i, j), i, j)]
    else []
  }

  /** The comparison of the paragraphs at positions `i` and `j`, as a function of the two positions. */
  function Compare(c: Comparison): (nat, nat) -> seq<SimilarPair> {
    (i: nat, j: nat) =>
      if |c.texts| == |c.paragraphs| && i < |c.paragraphs| && j < |c.paragraphs| then PairAt(c, i, j) else []
  }

  /** What the inner loop for position `a` of `idx` yields against positions `a + 1 .. hi - 1`. */
  function Row<T>(f: (nat, nat) -> seq<T>, idx: seq<nat>, a: nat, hi: nat): seq<T>
    requires a < |idx| && hi <= |idx|
  {
    if hi <= a + 1 then [] else Row(f, idx, a, hi - 1) + f(idx[a], idx[hi - 1])
  }

  /** What the outer loop over positions `0 .. hi - 1` of `idx` yields. */
  function AllPairs<T>(f: (nat, nat) -> seq<T>, idx: seq<nat>, hi: nat): seq<T>
    requires hi <= |idx|
  {
    if hi == 0 then [] else AllPairs(f, idx, hi - 1) + Row(f, idx, hi - 1, |idx|)
  }

  /** `range(n)`. */
  function Range(n: nat): (r: seq<nat>)
    ensures |r| == n && forall k :: 0 <= k < n ==> r[k] == k
  {
    seq(n, k requires 0 <= k < n => k)
  }

  /** `n * (n - 1) // 2`, the number of unordered pairs of `n` paragraphs. */
  function PairCount(n: nat): nat {
    n * (n - 1) / 2
  }

  /** What `np.random.choice(range(n), size=min(1000, n), replace=False)` may return. */
  predicate ValidSample(sample: seq<nat>, n: nat) {
    && |sample| == (if n < 1000 then n else 1000)
    && (forall k :: 0 <= k < |sample| ==> sample[k] < n)
    && (forall k, l :: 0 <= k < l < |sample| ==> sample[k] != sample[l])
  }

  /** The preprocessed text of every paragraph. */
  function Texts(paragraphs: seq<ParagraphData>): (ts: seq<string>)
    ensures |ts| == |paragraphs| && forall i :: 0 <= i < |ts| ==> ts[i] == PreprocessText(paragraphs[i].text)
  {
    seq(|paragraphs|, i requires 0 <= i < |paragraphs| => PreprocessText(paragraphs[i].text))
  }

  /** The positions the loops walk: the sample when there are more pairs than allowed, else every position in order. */
  function Positions(n: nat, maxComparisons: int, sample: seq<nat>): seq<nat> {
    if PairCount(n) > maxComparisons then sample else Range(n)
  }

  /**
   * What `find_similar_paragraphs` returns: nothing for fewer than two
   * paragraphs or when vectorisation fails; otherwise the pairs found by the
   * nested loops over the positions.
   */
  function SimilarPairs(paragraphs: seq<ParagraphData>, threshold: real, maxComparisons: int,
                        vectorized: bool, cosine: (nat, nat) -> real, ratio: (string, string) -> int,
                        sample: seq<nat>): seq<SimilarPair>
  {
    if |paragraphs| < 2 || !vectorized then []
    else
      var idx := Positions(|paragraphs|, maxComparisons, sample);
      AllPairs(Compare(Comparison(paragraphs, Texts(paragraphs), threshold, cosine, ratio)), idx, |idx|)
  }

  /**
   * The inner loop of `find_similar_paragraphs`: position `i` of `idx` against
   * every later position, in order.
   */
  method CompareRow(c: Comparison, idx: seq<nat>, i: nat) returns (found: seq<SimilarPair>)
    requires |c.texts| == |c.paragraphs|
    requires forall k :: 0 <= k < |idx| ==> idx[k] < |c.paragraphs|
    requires i < |idx|
    ensures found == Row(Compare(c), idx, i, |idx|)
  {
    found := [];
    var idx1 := idx[i];
    for j := i + 1 to |idx|
      invariant found == Row(Compare(c), idx, i, j)
    {
      var idx2 := idx[j];
      PairsStep(Compare(c), idx, i, j, []);
      assert Compare(c)(idx1, idx2) == PairAt(c, idx1, idx2);
      if c.paragraphs[idx1].hash == c.paragraphs[idx2].hash {
        assert PairAt(c, idx1, idx2) == [];
        continue;
      }
      var sim := c.cosine(idx1, idx2);
      if sim >= c.threshold {
        var fuzzySim := c.ratio(c.texts[idx1], c.texts[idx2]) as real / 100.0;
        var combinedSim := (sim + fuzzySim) / 2.0;
        assert combinedSim == Combined(c, idx1, idx2);
        if combinedSim >= c.threshold {
          assert PairAt(c, idx1, idx2) == [SimilarPair(c.paragraphs[idx1], c.paragraphs[idx2], combinedSim, idx1, idx2)];
          found := found + [SimilarPair(c.paragraphs[idx1], c.paragraphs[idx2], combinedSim, idx1, idx2)];
        } else {
          assert PairAt(c, idx1, idx2) == [];
        }
      } else {
        assert PairAt(c, idx1, idx2) == [];
      }
    }
  }

  /**
   * The outer loop of `find_similar_paragraphs` over the positions `idx`:
   * every position against every later one, in order.
   */
  method ComparePairs(c: Comparison, idx: seq<nat>) returns (similarPairs: seq<SimilarPair>)
    requires |c.texts| == |c.paragraphs|
    requires forall k :: 0 <= k < |idx| ==> idx[k] < |c.paragraphs|
    ensures similarPairs == AllPairs(Compare(c), idx, |idx|)
  {
    similarPairs := [];
    for i := 0 to |idx|
      invariant similarPairs == AllPairs(Compare(c), idx, i)
    {
      var found := CompareRow(c, idx, i);
      similarPairs := similarPairs + found;
    }
  }

  /**
   * `find_similar_paragraphs`, with the TF-IDF vectoriser's success, the
   * cosine similarity of two rows, `fuzz.ratio` and the random sample as
   * parameters. The sample is consulted only when there are more pairs than
   * `maxComparisons`.
   */
  method FindSimilarParagraphs(paragraphs: seq<ParagraphData>, threshold: real, maxComparisons: int,
                               vectorized: bool, cosine: (nat, nat) -> real, ratio: (string, string) -> int,
                               sample: seq<nat>)
    returns (similarPairs: seq<SimilarPair>)
    requires PairCount(|paragraphs|) > maxComparisons ==> ValidSample(sample, |paragraphs|)
    ensures similarPairs == SimilarPairs(paragraphs, threshold, maxComparisons, vectorized, cosine, ratio, sample)
  {
    if |paragraphs| < 2 {
      return [];
    }
    var texts := Texts(paragraphs);
    if !vectorized {
      return [];
    }
    var nParagraphs := |paragraphs|;
    var nComparisons := nParagraphs * (nParagraphs - 1) / 2;
    var indices := if nComparisons > maxComparisons then sample else Range(nParagraphs);
    assert indices == Positions(nParagraphs, maxComparisons, sample);
    similarPairs := ComparePairs(Comparison(paragraphs, texts, threshold, cosine, ratio), indices);
  }

  /** Whether the comparison of positions `i` and `j` reports them: different hashes, both scores at the threshold. */
  predicate Qualifies(c: Comparison, i: nat, j: nat)
    requires |c.texts| == |c.paragraphs| && i < |c.paragraphs| && j < |c.paragraphs|
  {
    c.paragraphs[i].hash != c.paragraphs[j].hash
    && c.cosine(i, j) >= c.threshold && Combined(c, i, j) >= c.threshold
  }

  /** One comparison reports the pair, with its paragraphs and combined score, exactly when it qualifies. */
  lemma PairAtSpec(c: Comparison, i: nat, j: nat)
    requires |c.texts| == |c.paragraphs| && i < |c.paragraphs| && j < |c.paragraphs|
    ensures PairAt(c, i, j) == if Qualifies(c, i, j)
                               then [SimilarPair(c.paragraphs[i], c.paragraphs[j], Combined(c, i, j), i, j)]
                               else []
  {
  }

  /** One inner iteration appends the comparison of positions `a` and `b`. */
  lemma PairsStep<T>(f: (nat, nat) -> seq<T>, idx: seq<nat>, a: nat, b: nat, done: seq<T>)
    requires a < b < |idx|
    ensures done + Row(f, idx, a, b + 1) == (done + Row(f, idx, a, b)) + f(idx[a], idx[b])
  {
  }

  /** The comparison of position `a` of `idx` with some position `b`, `a < b < hi`, yields `x`. */
  ghost predicate YieldedInRow<T>(f: (nat, nat) -> seq<T>, idx: seq<nat>, a: nat, hi: nat, x: T)
    requires a < |idx| && hi <= |idx|
  {
    exists b :: a < b < hi && x in f(idx[a], idx[b])
  }

  /** The inner loop yields `x` exactly when the comparison with some later position does. */
  lemma {:induction false} RowMember<T>(f: (nat, nat) -> seq<T>, idx: seq<nat>, a: nat, hi: nat, x: T)
    requires a < |idx| && hi <= |idx|
    ensures x in Row(f, idx, a, hi) <==> YieldedInRow(f, idx, a, hi, x)
    decreases hi
  {
    if hi > a + 1 {
      RowMember(f, idx, a, hi - 1, x);
      assert x in Row(f, idx, a, hi) <==> x in Row(f, idx, a, hi - 1) || x in f(idx[a], idx[hi - 1]);
      if YieldedInRow(f, idx, a, hi, x) {
        var b :| a < b < hi && x in f(idx[a], idx[b]);
        if b < hi - 1 {
          assert YieldedInRow(f, idx, a, hi - 1, x);
        }
      }
      if YieldedInRow(f, idx, a, hi - 1, x) {
        var b :| a < b < hi - 1 && x in f(idx[a], idx[b]);
        assert b < hi;
      }
    }
  }

  /** Some comparison of two positions `a < b` of `idx`, with `a < hi`, yields `x`. */
  ghost predicate YieldedBefore<T>(f: (nat, nat) -> seq<T>, idx: seq<nat>, hi: nat, x: T) {
    exists a, b :: 0 <= a < hi && a < b < |idx| && x in f(idx[a], idx[b])
  }

  /** The nested loops yield `x` exactly when the comparison of some two positions `a < b` does. */
  lemma AllPairsMember<T>(f: (nat, nat) -> seq<T>, idx: seq<nat>, hi: nat, x: T)
    requires hi <= |idx|
    ensures x in AllPairs(f, idx, hi) <==> YieldedBefore(f, idx, hi, x)
  {
    if x in AllPairs(f, idx, hi) {
      AllPairsYielded(f, idx, hi, x);
    }
    if YieldedBefore(f, idx, hi, x) {
      YieldedInAllPairs(f, idx, hi, x);
    }
  }

  lemma {:induction false} AllPairsYielded<T>(f: (nat, nat) -> seq<T>, idx: seq<nat>, hi: nat, x: T)
    requires 0 < hi <= |idx| && x in AllPairs(f, idx, hi)
    ensures YieldedBefore(f, idx, hi, x)
  {
    var last := hi - 1;
    AllPairsSplit(f, idx, hi, x);
    YieldedBeforeStep(f, idx, hi, x);
    if x in AllPairs(f, idx, last) {
      AllPairsYielded(f, idx, last, x);
    } else {
      RowMember(f, idx, last, |idx|, x);
    }
  }

  lemma {:induction false} YieldedInAllPairs<T>(f: (nat, nat) -> seq<T>, idx: seq<nat>, hi: nat, x: T)
    requires 0 < hi <= |idx| && YieldedBefore(f, idx, hi, x)
    ensures x in AllPairs(f, idx, hi)
  {
    var last := hi - 1;
    AllPairsSplit(f, idx, hi, x);
    YieldedBeforeStep(f, idx, hi, x);
    if YieldedBefore(f, idx, last, x) {
      YieldedInAllPairs(f, idx, last, x);
    } else {
      RowMember(f, idx, last, |idx|, x);
    }
  }

  /** The outer loop's round `hi - 1` appends its row to what the rounds before it yielded. */
  lemma AllPairsSplit<T>(f: (nat, nat) -> seq<T>, idx: seq<nat>, hi: nat, x: T)
    requires 0 < hi <= |idx|
    ensures x in AllPairs(f, idx, hi) <==> x in AllPairs(f, idx, hi - 1) || x in Row(f, idx, hi - 1, |idx|)
  {
    assert AllPairs(f, idx, hi) == AllPairs(f, idx, hi - 1) + Row(f, idx, hi - 1, |idx|);
  }

  /** A pair with first position below `hi` has it below `hi - 1`, or at `hi - 1`. */
  lemma YieldedBeforeStep<T>(f: (nat, nat) -> seq<T>, idx: seq<nat>, hi: nat, x: T)
    requires 0 < hi <= |idx|
    ensures YieldedBefore(f, idx, hi, x) <==> YieldedBefore(f, idx, hi - 1, x) || YieldedInRow(f, idx, hi - 1, |idx|, x)
  {
    if YieldedInRow(f, idx, hi - 1, |idx|, x) {
      RowYields(f, idx, hi - 1, x);
    }
    if YieldedBefore(f, idx, hi - 1, x) {
      YieldedBeforeGrows(f, idx, hi - 1, x);
    }
    if YieldedBefore(f, idx, hi, x) {
      YieldedBeforeSplits(f, idx, hi, x);
    }
  }

  /** The steps of `AllPairsMember`. */
  lemma RowYields<T>(f: (nat, nat) -> seq<T>, idx: seq<nat>, last: nat, x: T)
    requires last < |idx|
    requires YieldedInRow(f, idx, last, |idx|, x)
    ensures YieldedBefore(f, idx, last + 1, x)
  {
    var b :| last < b < |idx| && x in f(idx[last], idx[b]);
    assert 0 <= last < last + 1 && last < b < |idx|;
  }

  lemma YieldedBeforeSplits<T>(f: (nat, nat) -> seq<T>, idx: seq<nat>, hi: nat, x: T)
    requires 0 < hi <= |idx| && YieldedBefore(f, idx, hi, x)
    ensures YieldedBefore(f, idx, hi - 1, x) || YieldedInRow(f, idx, hi - 1, |idx|, x)
  {
    var a, b :| 0 <= a < hi && a < b < |idx| && x in f(idx[a], idx[b]);
    if a < hi - 1 {
      assert YieldedBefore(f, idx, hi - 1, x);
    } else {
      assert a == hi - 1;
      assert YieldedInRow(f, idx, hi - 1, |idx|, x);
    }
  }

  lemma YieldedBeforeGrows<T>(f: (nat, nat) -> seq<T>, idx: seq<nat>, hi: nat, x: T)
    requires YieldedBefore(f, idx, hi, x)
    ensures YieldedBefore(f, idx, hi + 1, x)
  {
    var a, b :| 0 <= a < hi && a < b < |idx| && x in f(idx[a], idx[b]);
    assert a < hi + 1;
  }

  /**
   * A pair the loops report over `idx` qualifies, carries its own two
   * paragraphs and combined score, and comes from two positions of `idx`, the
   * first before the second.
   */
  lemma PairsSound(c: Comparison, idx: seq<nat>, x: SimilarPair)
    requires |c.texts| == |c.paragraphs|
    requires x in AllPairs(Compare(c), idx, |idx|)
    ensures x.index1 < |c.paragraphs| && x.index2 < |c.paragraphs| && Qualifies(c, x.index1, x.index2)
    ensures x == SimilarPair(c.paragraphs[x.index1], c.paragraphs[x.index2], Combined(c, x.index1, x.index2),
                             x.index1, x.index2)
    ensures exists a, b :: 0 <= a < b < |idx| && idx[a] == x.index1 && idx[b] == x.index2
  {
    AllPairsMember(Compare(c), idx, |idx|, x);
    var a, b :| 0 <= a < |idx| && a < b < |idx| && x in Compare(c)(idx[a], idx[b]);
    assert idx[a] < |c.paragraphs| && idx[b] < |c.paragraphs|;
    PairAtSpec(c, idx[a], idx[b]);
  }

  /** Every qualifying pair of positions `a < b` of `idx` is reported. */
  lemma PairsComplete(c: Comparison, idx: seq<nat>, a: nat, b: nat)
    requires |c.texts| == |c.paragraphs|
    requires a < b < |idx| && idx[a] < |c.paragraphs| && idx[b] < |c.paragraphs|
    requires Qualifies(c, idx[a], idx[b])
    ensures SimilarPair(c.paragraphs[idx[a]], c.paragraphs[idx[b]], Combined(c, idx[a], idx[b]), idx[a], idx[b])
              in AllPairs(Compare(c), idx, |idx|)
  {
    var x := SimilarPair(c.paragraphs[idx[a]], c.paragraphs[idx[b]], Combined(c, idx[a], idx[b]), idx[a], idx[b]);
    PairAtSpec(c, idx[a], idx[b]);
    assert x in Compare(c)(idx[a], idx[b]);
    AllPairsMember(Compare(c), idx, |idx|, x);
  }

  /**
   * Every pair `find_similar_paragraphs` reports names two distinct positions
   * holding its two paragraphs, whose hashes differ, whose cosine score
   * reaches the threshold, and whose reported score, the average of the cosine
   * score and the fuzzy ratio of the two preprocessed texts, reaches it too.
   * Without sampling the first position comes first; with sampling both
   * positions come from the sample. Nothing is reported for fewer than two
   * paragraphs or when vectorisation fails.
   */
  lemma SimilarPairsSound(paragraphs: seq<ParagraphData>, threshold: real, maxComparisons: int,
                          vectorized: bool, cosine: (nat, nat) -> real, ratio: (string, string) -> int,
                          sample: seq<nat>, x: SimilarPair)
    requires PairCount(|paragraphs|) > maxComparisons ==> ValidSample(sample, |paragraphs|)
    requires x in SimilarPairs(paragraphs, threshold, maxComparisons, vectorized, cosine, ratio, sample)
    ensures |paragraphs| >= 2 && vectorized
    ensures x.index1 < |paragraphs| && x.index2 < |paragraphs| && x.index1 != x.index2
    ensures x.para1 == paragraphs[x.index1] && x.para2 == paragraphs[x.index2]
    ensures x.para1.hash != x.para2.hash
    ensures cosine(x.index1, x.index2) >= threshold && x.similarity >= threshold
    ensures x.similarity == (cosine(x.index1, x.index2)
                             + ratio(PreprocessText(x.para1.text), PreprocessText(x.para2.text)) as real / 100.0) / 2.0
    ensures PairCount(|paragraphs|) <= maxComparisons ==> x.index1 < x.index2
    ensures PairCount(|paragraphs|) > maxComparisons ==> x.index1 in sample && x.index2 in sample
  {
    var c := Comparison(paragraphs, Texts(paragraphs), threshold, cosine, ratio);
    var idx := Positions(|paragraphs|, maxComparisons, sample);
    PairsSound(c, idx, x);
    var a, b :| 0 <= a < b < |idx| && idx[a] == x.index1 && idx[b] == x.index2;
    assert c.texts[x.index1] == PreprocessText(x.para1.text);
    assert c.texts[x.index2] == PreprocessText(x.para2.text);
  }

  /** Without sampling, every qualifying pair of positions `i < j` is reported. */
  lemma SimilarPairsComplete(paragraphs: seq<ParagraphData>, threshold: real, maxComparisons: int,
                             cosine: (nat, nat) -> real, ratio: (string, string) -> int,
                             sample: seq<nat>, i: nat, j: nat)
    requires PairCount(|paragraphs|) <= maxComparisons
    requires i < j < |paragraphs|
    requires Qualifies(Comparison(paragraphs, Texts(paragraphs), threshold, cosine, ratio), i, j)
    ensures var c := Comparison(paragraphs, Texts(paragraphs), threshold, cosine, ratio);
            SimilarPair(paragraphs[i], paragraphs[j], Combined(c, i, j), i, j)
              in SimilarPairs(paragraphs, threshold, maxComparisons, true, cosine, ratio, sample)
  {
    var c := Comparison(paragraphs, Texts(paragraphs), threshold, cosine, ratio);
    var all := Range(|paragraphs|);
    SimilarPairsUnfold(paragraphs, threshold, maxComparisons, cosine, ratio, sample);
    assert all[i] == i && all[j] == j;
    PairsComplete(c, all, i, j);
  }

  /** With at least two paragraphs and a successful vectorisation, the result is what the loops over the positions yield. */
  lemma SimilarPairsUnfold(paragraphs: seq<ParagraphData>, threshold: real, maxComparisons: int,
                           cosine: (nat, nat) -> real, ratio: (string, string) -> int, sample: seq<nat>)
    requires |paragraphs| >= 2
    ensures var idx := Positions(|paragraphs|, maxComparisons, sample);
            SimilarPairs(paragraphs, threshold, maxComparisons, true, cosine, ratio, sample)
            == AllPairs(Compare(Comparison(paragraphs, Texts(paragraphs), threshold, cosine, ratio)), idx, |idx|)
  {
  }

  /** With sampling, every qualifying pair of sample positions `a < b` is reported. */
  lemma SampledPairsComplete(paragraphs: seq<ParagraphData>, threshold: real, maxComparisons: int,
                             cosine: (nat, nat) -> real, ratio: (string, string) -> int,
                             sample: seq<nat>, a: nat, b: nat)
    requires PairCount(|paragraphs|) > maxComparisons && ValidSample(sample, |paragraphs|)
    requires |paragraphs| >= 2 && a < b < |sample|
    requires Qualifies(Comparison(paragraphs, Texts(paragraphs), threshold, cosine, ratio), sample[a], sample[b])
    ensures var c := Comparison(paragraphs, Texts(paragraphs), threshold, cosine, ratio);
            SimilarPair(paragraphs[sample[a]], paragraphs[sample[b]], Combined(c, sample[a], sample[b]),
                        sample[a], sample[b])
              in SimilarPairs(paragraphs, threshold, maxComparisons, true, cosine, ratio, sample)
  {
    var c := Comparison(paragraphs, Texts(paragraphs), threshold, cosine, ratio);
    SimilarPairsUnfold(paragraphs, threshold, maxComparisons, cosine, ratio, sample);
    PairsComplete(c, sample, a, b);
  }
}
