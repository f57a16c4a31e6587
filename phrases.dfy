/**
 * `extract_common_phrases` (utils/analyzer.py): every run of 5 to 15
 * consecutive words of each paragraph of at least five words, long enough in
 * characters, counted across the paragraphs; the phrases seen more than once,
 * most frequent first, are then taken greedily from the top 100, skipping any
 * phrase contained in one already taken, until `maxPhrases` are taken.
 */
module Phrases {
  import opened Text
  import opened Seqs
  import opened Grouping
  import opened Tally
  import opened Sorting
  import opened Analyzer

  /** Fewer paragraphs than this yield no phrases. */
  const MinParagraphs: nat := 5
  /** The fewest words in a phrase; shorter paragraphs are skipped. */
  const MinWords: nat := 5
  /** The most words in a phrase. */
  const MaxWords: nat := 15
  /** How many of the most frequent phrases the greedy filter looks at. */
  const CandidateLimit: nat := 100

  /** A result entry: `(phrase, count)`. */
  datatype PhraseCount = PhraseCount(phrase: string, count: nat)

  function Id(s: string): string {
    s
  }

  function CountOf(pc: PhraseCount): int {
    pc.count
  }

  function MinNat(a: nat, b: nat): nat {
    if a < b then a else b
  }

  /** The phrase, if it has at least `minLength` characters. */
  function Keep(phrase: string, minLength: int): seq<string> {
    if |phrase| >= minLength then [phrase] else []
  }

  /** The phrases starting at word `i` and ending at a word `j` with `i + 4 <= j < hi`. */
  function Span(words: seq<string>, minLength: int, i: nat, hi: nat): seq<string>
    requires hi <= |words|
  {
    if hi <= i + MinWords - 1 then [] else Span(words, minLength, i, hi - 1) + Keep(Join(words[i..hi]), minLength)
  }

  /** The phrases starting at the words `0 .. hi - 1`. */
  function Spans(words: seq<string>, minLength: int, hi: nat): seq<string>
    requires hi + MinWords - 1 <= |words|
  {
    if hi == 0 then []
    else Spans(words, minLength, hi - 1) + Span(words, minLength, hi - 1, MinNat(hi - 1 + MaxWords, |words|))
  }

  /** The phrases of one paragraph text: none if it has fewer than five words. */
  function TextPhrases(text: string, minLength: int): seq<string> {
    if |SplitWords(text)| < MinWords then []
    else Spans(SplitWords(text), minLength, |SplitWords(text)| - (MinWords - 1))
  }

  /** `all_phrases`: the phrases of every paragraph, in paragraph order. */
  function AllPhrases(paragraphs: seq<ParagraphData>, minLength: int): seq<string> {
    FlatMap((p: ParagraphData) => TextPhrases(p.text, minLength), paragraphs)
  }

  /** The entry for a phrase if it was seen more than once. */
  function Repeated(all: seq<string>, p: string): seq<PhraseCount> {
    if Count(all, Id, p) > 1 then [PhraseCount(p, Count(all, Id, p))] else []
  }

  /** `common_phrases` before sorting: the repeated phrases with their counts, in the order first seen. */
  function Common(all: seq<string>, keys: seq<string>): seq<PhraseCount> {
    FlatMap((p: string) => Repeated(all, p), keys)
  }

  /** The top 100 repeated phrases, most frequent first, ties in the order first seen. */
  function Candidates(all: seq<string>): seq<PhraseCount> {
    var sorted := SortDesc(Common(all, KeyOrder(all, Id)), CountOf);
    if |sorted| > CandidateLimit then sorted[..CandidateLimit] else sorted
  }

  /** `phrase in selected_phrase` for some phrase already selected. */
  predicate Contained(phrase: string, chosen: seq<PhraseCount>) {
    exists t :: 0 <= t < |chosen| && IsSubstring(phrase, chosen[t].phrase)
  }

  /**
   * The filtering loop from `chosen` on: keep each candidate not contained in
   * a phrase already kept, and stop once `maxPhrases` are kept.
   */
  function Greedy(cands: seq<PhraseCount>, chosen: seq<PhraseCount>, maxPhrases: int): seq<PhraseCount>
    decreases |cands|
  {
    if cands == [] then chosen
    else
      var next := if Contained(cands[0].phrase, chosen) then chosen else chosen + [cands[0]];
      if |next| >= maxPhrases then next else Greedy(cands[1..], next, maxPhrases)
  }

  /** One round of the filtering loop: `next` is what `chosen` becomes after candidate `k`. */
  lemma GreedyStep(cands: seq<PhraseCount>, k: nat, chosen: seq<PhraseCount>, next: seq<PhraseCount>, maxPhrases: int)
    requires k < |cands|
    requires next == if Contained(cands[k].phrase, chosen) then chosen else chosen + [cands[k]]
    ensures Greedy(cands[k..], chosen, maxPhrases)
            == if |next| >= maxPhrases then next else Greedy(cands[k + 1..], next, maxPhrases)
  {
    assert cands[k..][0] == cands[k] && cands[k..][1..] == cands[k + 1..];
  }

  /** What `extract_common_phrases` returns. */
  function CommonPhrases(paragraphs: seq<ParagraphData>, minLength: int, maxPhrases: int): seq<PhraseCount> {
    if |paragraphs| < MinParagraphs then []
    else Greedy(Candidates(AllPhrases(paragraphs, minLength)), [], maxPhrases)
  }

  /** The n-gram loops over the words of one paragraph. */
  method CollectPhrases(words: seq<string>, minLength: int) returns (phrases: seq<string>)
    requires |words| >= MinWords
    ensures phrases == Spans(words, minLength, |words| - (MinWords - 1))
  {
    phrases := [];
    for i := 0 to |words| - 4
      invariant phrases == Spans(words, minLength, i)
    {
      phrases := CollectRun(words, minLength, i, phrases);
    }
  }

  /** The inner loop: append the phrases of 5 to 15 words that start at word `i`. */
  method CollectRun(words: seq<string>, minLength: int, i: nat, done: seq<string>) returns (phrases: seq<string>)
    requires i + MinWords <= |words|
    ensures phrases == done + Span(words, minLength, i, MinNat(i + MaxWords, |words|))
  {
    phrases := done;
    for j := i + 4 to MinNat(i + 15, |words|)
      invariant phrases == done + Span(words, minLength, i, j)
    {
      var phrase := Join(words[i..j + 1]);
      assert Span(words, minLength, i, j + 1) == Span(words, minLength, i, j) + Keep(phrase, minLength);
      if |phrase| >= minLength {
        assert done + Span(words, minLength, i, j) + [phrase] == done + (Span(words, minLength, i, j) + [phrase]);
        phrases := phrases + [phrase];
      } else {
        assert Span(words, minLength, i, j) + Keep(phrase, minLength) == Span(words, minLength, i, j);
      }
    }
  }

  /** The loop that fills `all_phrases` from the paragraph texts. */
  method CollectAllPhrases(paragraphs: seq<ParagraphData>, minPhraseLength: int) returns (allPhrases: seq<string>)
    ensures allPhrases == AllPhrases(paragraphs, minPhraseLength)
  {
    var texts := seq(|paragraphs|, i requires 0 <= i < |paragraphs| => paragraphs[i].text);
    allPhrases := [];
    for t := 0 to |texts|
      invariant allPhrases == AllPhrases(paragraphs[..t], minPhraseLength)
    {
      FlatMapSnoc((p: ParagraphData) => TextPhrases(p.text, minPhraseLength), paragraphs[..t], paragraphs[t]);
      TakeSnoc(paragraphs, t);
      var words := SplitWords(texts[t]);
      if |words| < 5 {
        continue;
      }
      var phrases := CollectPhrases(words, minPhraseLength);
      allPhrases := allPhrases + phrases;
    }
    assert paragraphs[..|paragraphs|] == paragraphs;
  }

  /** The loop that fills `phrase_counts`; `order` is the dictionary's key order. */
  method CountPhrases(allPhrases: seq<string>) returns (order: seq<string>, phraseCounts: map<string, nat>)
    ensures order == KeyOrder(allPhrases, Id)
    ensures forall p :: p in phraseCounts <==> p in order
    ensures forall p :: p in phraseCounts ==> phraseCounts[p] == Count(allPhrases, Id, p)
  {
    order := [];
    phraseCounts := map[];
    for k := 0 to |allPhrases|
      invariant order == KeyOrder(allPhrases[..k], Id)
      invariant forall p :: p in phraseCounts <==> p in order
      invariant forall p :: p in phraseCounts ==> phraseCounts[p] == Count(allPhrases[..k], Id, p)
    {
      var phrase := allPhrases[k];
      TakeSnoc(allPhrases, k);
      KeyOrderSnoc(allPhrases[..k], phrase, Id);
      ghost var before := phraseCounts;
      if phrase in phraseCounts {
        phraseCounts := phraseCounts[phrase := phraseCounts[phrase] + 1];
      } else {
        phraseCounts := phraseCounts[phrase := 1];
        order := order + [phrase];
      }
      CountsStep(allPhrases[..k], phrase, before, phraseCounts);
    }
    assert allPhrases[..|allPhrases|] == allPhrases;
  }

  /** One iteration of the counting loop keeps every count equal to the number of occurrences so far. */
  lemma CountsStep(seen: seq<string>, phrase: string, before: map<string, nat>, after: map<string, nat>)
    requires forall p :: p in before <==> p in KeyOrder(seen, Id)
    requires forall p :: p in before ==> before[p] == Count(seen, Id, p)
    requires after == if phrase in before then before[phrase := before[phrase] + 1] else before[phrase := 1]
    ensures forall p :: p in after ==> after[p] == Count(seen + [phrase], Id, p)
  {
    forall p | p in after ensures after[p] == Count(seen + [phrase], Id, p) {
      CountSnoc(seen, phrase, Id, p);
      if p != phrase {
        assert after[p] == before[p];
      } else if p !in before {
        KeyOrderMember(seen, Id, p);
        CountPositive(seen, Id, p);
      }
    }
  }

  /** The comprehension that keeps the phrases counted more than once, in the dictionary's order. */
  method RepeatedPhrases(allPhrases: seq<string>, order: seq<string>, phraseCounts: map<string, nat>)
    returns (commonPhrases: seq<PhraseCount>)
    requires forall p :: p in phraseCounts <==> p in order
    requires forall p :: p in phraseCounts ==> phraseCounts[p] == Count(allPhrases, Id, p)
    ensures commonPhrases == Common(allPhrases, order)
  {
    commonPhrases := [];
    for k := 0 to |order|
      invariant commonPhrases == Common(allPhrases, order[..k])
    {
      FlatMapSnoc((p: string) => Repeated(allPhrases, p), order[..k], order[k]);
      TakeSnoc(order, k);
      var phrase := order[k];
      if phraseCounts[phrase] > 1 {
        commonPhrases := commonPhrases + [PhraseCount(phrase, phraseCounts[phrase])];
      }
    }
    assert order[..|order|] == order;
  }

  /** The scan for a kept phrase that contains `phrase`; it stops at the first one. */
  method IsContained(phrase: string, filteredPhrases: seq<PhraseCount>) returns (isContained: bool)
    ensures isContained <==> Contained(phrase, filteredPhrases)
  {
    isContained := false;
    var s := 0;
    while s < |filteredPhrases|
      invariant 0 <= s <= |filteredPhrases|
      invariant !isContained ==> forall u :: 0 <= u < s ==> !IsSubstring(phrase, filteredPhrases[u].phrase)
      invariant isContained ==> Contained(phrase, filteredPhrases)
    {
      if IsSubstring(phrase, filteredPhrases[s].phrase) {
        isContained := true;
        break;
      }
      s := s + 1;
    }
  }

  /** The filtering loop: skip contained phrases, stop after `maxPhrases`. */
  method SelectPhrases(candidates: seq<PhraseCount>, maxPhrases: int) returns (filteredPhrases: seq<PhraseCount>)
    ensures filteredPhrases == Greedy(candidates, [], maxPhrases)
  {
    filteredPhrases := [];
    var k := 0;
    while k < |candidates|
      invariant 0 <= k <= |candidates|
      invariant Greedy(candidates[k..], filteredPhrases, maxPhrases) == Greedy(candidates, [], maxPhrases)
    {
      var candidate := candidates[k];
      var isContained := IsContained(candidate.phrase, filteredPhrases);
      ghost var chosen := filteredPhrases;
      if !isContained {
        filteredPhrases := filteredPhrases + [candidate];
      }
      GreedyStep(candidates, k, chosen, filteredPhrases, maxPhrases);
      if |filteredPhrases| >= maxPhrases {
        return;
      }
      k := k + 1;
    }
  }

  /**
   * `extract_common_phrases`: collect the phrases, count them, keep those
   * seen more than once, sort by count, then filter the top 100 greedily.
   */
  method ExtractCommonPhrases(paragraphs: seq<ParagraphData>, minPhraseLength: int, maxPhrases: int)
    returns (filteredPhrases: seq<PhraseCount>)
    ensures filteredPhrases == CommonPhrases(paragraphs, minPhraseLength, maxPhrases)
  {
    if |paragraphs| < 5 {
      return [];
    }
    var allPhrases := CollectAllPhrases(paragraphs, minPhraseLength);
    var order, phraseCounts := CountPhrases(allPhrases);
    var commonPhrases := RepeatedPhrases(allPhrases, order, phraseCounts);
    commonPhrases := SortDesc(commonPhrases, CountOf);
    var candidates := if |commonPhrases| > 100 then commonPhrases[..100] else commonPhrases;
    filteredPhrases := SelectPhrases(candidates, maxPhrases);
  }

  // ---------------------------------------------------------------------------
  // Properties of the greedy filter

  /** No phrase is contained in a phrase before it. */
  predicate NoneContained(s: seq<PhraseCount>) {
    forall a, b :: 0 <= a < b < |s| ==> !IsSubstring(s[b].phrase, s[a].phrase)
  }

  function MaxInt(a: int, b: int): int {
    if a < b then b else a
  }

  /** The filter keeps at most `maxPhrases` phrases, and at most one when `maxPhrases` is below one. */
  lemma {:induction false} GreedyBound(cands: seq<PhraseCount>, chosen: seq<PhraseCount>, maxPhrases: int)
    requires |chosen| < MaxInt(maxPhrases, 1)
    ensures |Greedy(cands, chosen, maxPhrases)| <= MaxInt(maxPhrases, 1)
    decreases |cands|
  {
    if cands != [] {
      var next := if Contained(cands[0].phrase, chosen) then chosen else chosen + [cands[0]];
      if |next| < maxPhrases {
        GreedyBound(cands[1..], next, maxPhrases);
      }
    }
  }

  /** The filter keeps only candidates, and never a phrase contained in one kept before it. */
  lemma {:induction false} GreedyKeeps(cands: seq<PhraseCount>, chosen: seq<PhraseCount>, maxPhrases: int)
    requires NoneContained(chosen)
    ensures NoneContained(Greedy(cands, chosen, maxPhrases))
    ensures forall x :: x in Greedy(cands, chosen, maxPhrases) ==> x in chosen || x in cands
    decreases |cands|
  {
    if cands != [] {
      var next := if Contained(cands[0].phrase, chosen) then chosen else chosen + [cands[0]];
      assert NoneContained(next) by {
        if !Contained(cands[0].phrase, chosen) {
          forall a | 0 <= a < |chosen| ensures !IsSubstring(cands[0].phrase, chosen[a].phrase) {
          }
        }
      }
      if |next| < maxPhrases {
        GreedyKeeps(cands[1..], next, maxPhrases);
        forall x | x in cands[1..] ensures x in cands {
        }
      }
    }
  }

  /** Filtering a list sorted by count keeps it sorted by count. */
  lemma {:induction false} GreedySorted(cands: seq<PhraseCount>, chosen: seq<PhraseCount>, maxPhrases: int)
    requires SortedDesc(cands, CountOf) && SortedDesc(chosen, CountOf)
    requires forall a, t :: 0 <= a < |chosen| && 0 <= t < |cands| ==> chosen[a].count >= cands[t].count
    ensures SortedDesc(Greedy(cands, chosen, maxPhrases), CountOf)
    decreases |cands|
  {
    if cands != [] {
      var next := if Contained(cands[0].phrase, chosen) then chosen else chosen + [cands[0]];
      var rest := cands[1..];
      assert SortedDesc(next, CountOf);
      if |next| < maxPhrases {
        forall a, t | 0 <= a < |next| && 0 <= t < |rest| ensures next[a].count >= rest[t].count {
          assert rest[t] == cands[t + 1];
        }
        GreedySorted(rest, next, maxPhrases);
      }
    }
  }

  // ---------------------------------------------------------------------------
  // Which phrases a paragraph yields

  /**
   * `phrase` is the run of words `i .. j - 1` of `text`, with 5 to 15 words,
   * and has at least `minLength` characters.
   */
  predicate IsPhraseOf(phrase: string, text: string, minLength: int) {
    IsRunOf(SplitWords(text), minLength, phrase)
  }

  /** `phrase` has at least `minLength` characters and is the run of words `i .. j - 1` of `words`, with 5 to 15 words. */
  predicate IsRunOf(words: seq<string>, minLength: int, phrase: string) {
    |phrase| >= minLength
    && exists i: nat, j: nat :: i + MinWords <= j <= i + MaxWords && j <= |words| && phrase == Join(words[i..j])
  }

  /** `phrase` is long enough and is a run of at least 5 words starting at word `i` and ending before word `hi`. */
  predicate RunFrom(words: seq<string>, minLength: int, i: nat, hi: nat, phrase: string)
    requires hi <= |words|
  {
    |phrase| >= minLength && exists j: nat :: i + MinWords <= j <= hi && phrase == Join(words[i..j])
  }

  lemma {:induction false} SpanMember(words: seq<string>, minLength: int, i: nat, hi: nat, phrase: string)
    requires hi <= |words|
    ensures phrase in Span(words, minLength, i, hi) <==> RunFrom(words, minLength, i, hi, phrase)
    decreases hi
  {
    if hi > i + MinWords - 1 {
      SpanMember(words, minLength, i, hi - 1, phrase);
      assert RunFrom(words, minLength, i, hi - 1, phrase) ==> RunFrom(words, minLength, i, hi, phrase);
      assert RunFrom(words, minLength, i, hi, phrase) ==>
               RunFrom(words, minLength, i, hi - 1, phrase) || phrase in Keep(Join(words[i..hi]), minLength);
    }
  }

  /** `phrase` is long enough and is a run of 5 to 15 words starting before word `hi`. */
  predicate RunBefore(words: seq<string>, minLength: int, hi: nat, phrase: string) {
    |phrase| >= minLength
    && exists i: nat, j: nat :: i < hi && i + MinWords <= j <= MinNat(i + MaxWords, |words|)
                                && phrase == Join(words[i..j])
  }

  lemma {:induction false} SpansMember(words: seq<string>, minLength: int, hi: nat, phrase: string)
    requires hi + MinWords - 1 <= |words|
    ensures phrase in Spans(words, minLength, hi) <==> RunBefore(words, minLength, hi, phrase)
  {
    if hi > 0 {
      var last := hi - 1;
      var top := MinNat(last + MaxWords, |words|);
      SpansMember(words, minLength, last, phrase);
      SpanMember(words, minLength, last, top, phrase);
      assert phrase in Spans(words, minLength, hi)
             <==> phrase in Spans(words, minLength, last) || phrase in Span(words, minLength, last, top);
      if RunFrom(words, minLength, last, top, phrase) {
        RunFromIsBefore(words, minLength, last, phrase);
      }
      if RunBefore(words, minLength, last, phrase) {
        RunBeforeGrows(words, minLength, last, phrase);
      }
      if RunBefore(words, minLength, hi, phrase) {
        RunBeforeSplits(words, minLength, hi, phrase);
      }
    }
  }

  /** The three steps of `SpansMember`. */
  lemma RunFromIsBefore(words: seq<string>, minLength: int, last: nat, phrase: string)
    requires last + MinWords <= |words|
    requires RunFrom(words, minLength, last, MinNat(last + MaxWords, |words|), phrase)
    ensures RunBefore(words, minLength, last + 1, phrase)
  {
    var j: nat :| last + MinWords <= j <= MinNat(last + MaxWords, |words|) && phrase == Join(words[last..j]);
    assert last < last + 1;
  }

  lemma RunBeforeGrows(words: seq<string>, minLength: int, last: nat, phrase: string)
    requires RunBefore(words, minLength, last, phrase)
    ensures RunBefore(words, minLength, last + 1, phrase)
  {
    var i: nat, j: nat :| i < last && i + MinWords <= j <= MinNat(i + MaxWords, |words|) && phrase == Join(words[i..j]);
    assert i < last + 1;
  }

  lemma RunBeforeSplits(words: seq<string>, minLength: int, hi: nat, phrase: string)
    requires 0 < hi && hi + MinWords - 1 <= |words|
    requires RunBefore(words, minLength, hi, phrase)
    ensures RunBefore(words, minLength, hi - 1, phrase)
            || RunFrom(words, minLength, hi - 1, MinNat(hi - 1 + MaxWords, |words|), phrase)
  {
    var last := hi - 1;
    var i: nat, j: nat :| i < hi && i + MinWords <= j <= MinNat(i + MaxWords, |words|) && phrase == Join(words[i..j]);
    if i < last {
      assert RunBefore(words, minLength, last, phrase);
    } else {
      assert i == last;
      assert RunFrom(words, minLength, last, MinNat(last + MaxWords, |words|), phrase);
    }
  }

  /** The runs of 5 to 15 words of `words` that are long enough. */
  lemma RunsMember(words: seq<string>, minLength: int, phrase: string)
    requires |words| >= MinWords
    ensures phrase in Spans(words, minLength, |words| - (MinWords - 1)) <==> IsRunOf(words, minLength, phrase)
  {
    var hi := |words| - (MinWords - 1);
    SpansMember(words, minLength, hi, phrase);
    if IsRunOf(words, minLength, phrase) {
      RunIsBefore(words, minLength, phrase);
    }
    if RunBefore(words, minLength, hi, phrase) {
      RunBeforeIsRun(words, minLength, phrase);
    }
  }

  lemma RunIsBefore(words: seq<string>, minLength: int, phrase: string)
    requires |words| >= MinWords && IsRunOf(words, minLength, phrase)
    ensures RunBefore(words, minLength, |words| - (MinWords - 1), phrase)
  {
    var i: nat, j: nat :| i + MinWords <= j <= i + MaxWords && j <= |words| && phrase == Join(words[i..j]);
    assert i < |words| - (MinWords - 1) && j <= MinNat(i + MaxWords, |words|);
  }

  lemma RunBeforeIsRun(words: seq<string>, minLength: int, phrase: string)
    requires |words| >= MinWords && RunBefore(words, minLength, |words| - (MinWords - 1), phrase)
    ensures IsRunOf(words, minLength, phrase)
  {
    var i: nat, j: nat :| i < |words| - (MinWords - 1) && i + MinWords <= j <= MinNat(i + MaxWords, |words|)
                          && phrase == Join(words[i..j]);
    assert i + MinWords <= j <= i + MaxWords && j <= |words|;
  }

  /** A paragraph yields exactly its runs of 5 to 15 words that are long enough. */
  lemma TextPhrasesMember(text: string, minLength: int, phrase: string)
    ensures phrase in TextPhrases(text, minLength) <==> IsPhraseOf(phrase, text, minLength)
  {
    var words := SplitWords(text);
    assert IsPhraseOf(phrase, text, minLength) == IsRunOf(words, minLength, phrase);
    if |words| >= MinWords {
      RunsMember(words, minLength, phrase);
      assert phrase in TextPhrases(text, minLength) <==> phrase in Spans(words, minLength, |words| - (MinWords - 1));
    } else {
      assert TextPhrases(text, minLength) == [];
      assert !IsRunOf(words, minLength, phrase);
    }
  }

  /** A run of words that contain no space splits back into the same words. */
  lemma RunWords(words: seq<string>, i: nat, j: nat)
    requires i <= j <= |words|
    requires forall k :: 0 <= k < |words| ==> words[k] != [] && NoSpace(words[k])
    ensures SplitWords(Join(words[i..j])) == words[i..j]
    ensures |SplitWords(Join(words[i..j]))| == j - i
  {
    var run := words[i..j];
    forall k | 0 <= k < |run| ensures run[k] != [] && NoSpace(run[k]) {
      assert run[k] == words[i + k];
    }
    SplitJoin(run);
  }

  /** A phrase of a paragraph has 5 to 15 words. */
  lemma PhraseWords(phrase: string, text: string, minLength: int)
    requires IsPhraseOf(phrase, text, minLength)
    ensures MinWords <= |SplitWords(phrase)| <= MaxWords
  {
    var words := SplitWords(text);
    var i: nat, j: nat :| i + MinWords <= j <= i + MaxWords && j <= |words| && phrase == Join(words[i..j]);
    RunWords(words, i, j);
    assert |SplitWords(phrase)| == j - i;
  }

  // ---------------------------------------------------------------------------
  // What `extract_common_phrases` promises

  /** The candidates are ordered by non-increasing count. */
  lemma CandidatesSorted(all: seq<string>)
    ensures SortedDesc(Candidates(all), CountOf)
  {
    var sorted := SortDesc(Common(all, KeyOrder(all, Id)), CountOf);
    SortDescSorted(Common(all, KeyOrder(all, Id)), CountOf);
    if |sorted| > CandidateLimit {
      var top := sorted[..CandidateLimit];
      forall a, b | 0 <= a < b < |top| ensures CountOf(top[a]) >= CountOf(top[b]) {
        assert top[a] == sorted[a] && top[b] == sorted[b];
      }
    }
  }

  /** A candidate is one of the repeated phrases. */
  lemma CandidateIsCommon(all: seq<string>, e: PhraseCount)
    requires e in Candidates(all)
    ensures e in Common(all, KeyOrder(all, Id))
  {
    var common := Common(all, KeyOrder(all, Id));
    assert e in SortDesc(common, CountOf);
    SortDescPermutes(common, CountOf);
    assert e in multiset(common);
  }

  /** A repeated phrase is seen more than once, and comes with its number of occurrences. */
  lemma CommonEntry(all: seq<string>, keys: seq<string>, e: PhraseCount)
    requires e in Common(all, keys)
    ensures e.count > 1 && e.count == Count(all, Id, e.phrase)
    ensures e.phrase in all
  {
    FlatMapMember((p: string) => Repeated(all, p), keys, e);
    var t :| 0 <= t < |keys| && e in Repeated(all, keys[t]);
    assert e.phrase == keys[t];
    CountPositive(all, Id, e.phrase);
    var i :| 0 <= i < |all| && Id(all[i]) == e.phrase;
  }

  /** A candidate is a phrase seen more than once, with its number of occurrences. */
  lemma CandidateEntry(all: seq<string>, e: PhraseCount)
    requires e in Candidates(all)
    ensures e.count > 1 && e.count == Count(all, Id, e.phrase)
    ensures e.phrase in all
  {
    CandidateIsCommon(all, e);
    CommonEntry(all, KeyOrder(all, Id), e);
  }

  /** Every phrase counted comes from one of the paragraphs. */
  lemma PhraseSource(paragraphs: seq<ParagraphData>, minLength: int, phrase: string)
    requires phrase in AllPhrases(paragraphs, minLength)
    ensures exists k :: 0 <= k < |paragraphs| && IsPhraseOf(phrase, paragraphs[k].text, minLength)
  {
    FlatMapMember((p: ParagraphData) => TextPhrases(p.text, minLength), paragraphs, phrase);
    var k :| 0 <= k < |paragraphs| && phrase in TextPhrases(paragraphs[k].text, minLength);
    TextPhrasesMember(paragraphs[k].text, minLength, phrase);
  }

  /**
   * No phrases from fewer than five paragraphs; otherwise at most `maxPhrases`
   * phrases (one when `maxPhrases` is below one, as the loop checks the limit
   * only after appending), most frequent first, none contained in a phrase
   * selected before it.
   */
  lemma CommonPhrasesShape(paragraphs: seq<ParagraphData>, minLength: int, maxPhrases: int)
    ensures |paragraphs| < MinParagraphs ==> CommonPhrases(paragraphs, minLength, maxPhrases) == []
    ensures |CommonPhrases(paragraphs, minLength, maxPhrases)| <= MaxInt(maxPhrases, 1)
    ensures SortedDesc(CommonPhrases(paragraphs, minLength, maxPhrases), CountOf)
    ensures NoneContained(CommonPhrases(paragraphs, minLength, maxPhrases))
  {
    if |paragraphs| >= MinParagraphs {
      var cands := Candidates(AllPhrases(paragraphs, minLength));
      GreedyBound(cands, [], maxPhrases);
      CandidatesSorted(AllPhrases(paragraphs, minLength));
      GreedySorted(cands, [], maxPhrases);
      GreedyKeeps(cands, [], maxPhrases);
    }
  }

  /**
   * Each selected entry is a run of 5 to 15 words of some paragraph, at least
   * `minLength` characters long, seen more than once across the paragraphs,
   * with its number of occurrences.
   */
  lemma CommonPhraseEntry(paragraphs: seq<ParagraphData>, minLength: int, maxPhrases: int, e: PhraseCount)
    requires e in CommonPhrases(paragraphs, minLength, maxPhrases)
    ensures e.count > 1 && e.count == Count(AllPhrases(paragraphs, minLength), Id, e.phrase)
    ensures |e.phrase| >= minLength
    ensures MinWords <= |SplitWords(e.phrase)| <= MaxWords
    ensures exists k :: 0 <= k < |paragraphs| && IsPhraseOf(e.phrase, paragraphs[k].text, minLength)
  {
    var all := AllPhrases(paragraphs, minLength);
    var cands := Candidates(all);
    GreedyKeeps(cands, [], maxPhrases);
    CandidateEntry(all, e);
    PhraseSource(paragraphs, minLength, e.phrase);
    var k :| 0 <= k < |paragraphs| && IsPhraseOf(e.phrase, paragraphs[k].text, minLength);
    PhraseWords(e.phrase, paragraphs[k].text, minLength);
  }
}
