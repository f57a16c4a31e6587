/**
 * The redundancy analysis of utils/analyzer.py: text normalisation for
 * comparison, exact-duplicate grouping by hash, the pair enumeration of the
 * near-duplicate search (with the vector and fuzzy scores as parameters),
 * placeholder usage counts and paragraph length statistics.
 */
module Analyzer {
  import opened Wrappers
  import opened Text
  import opened Seqs
  import opened Grouping

  /** A paragraph as the analysis functions see it: `{'id', 'text', 'hash'}`. */
  datatype ParagraphData = ParagraphData(id: int, text: string, hash: string)

  function HashOf(p: ParagraphData): string {
    p.hash
  }

  // ---------------------------------------------------------------------------
  // preprocess_text

  /** The characters `[,.;:!?"\']` that preprocessing deletes. */
  predicate IsDroppedPunctuation(c: char) {
    c == ',' || c == '.' || c == ';' || c == ':' || c == '!' || c == '?' || c == '"' || c == '\''
  }

  /** `re.sub(r'[,.;:!?"\']', '', s)`. */
  function RemovePunctuation(s: string): (r: string)
    ensures forall i :: 0 <= i < |r| ==> !IsDroppedPunctuation(r[i]) && r[i] in s
    ensures forall c :: multiset(r)[c] == if IsDroppedPunctuation(c) then 0 else multiset(s)[c]
  {
    if s == [] then []
    else
      var rest := RemovePunctuation(s[1..]);
      assert forall c :: c in rest ==> c in s;
      assert s == [s[0]] + s[1..];
      if IsDroppedPunctuation(s[0]) then rest else [s[0]] + rest
  }

  /** The deletion works character by character: it distributes over concatenation. */
  lemma {:induction false} RemovePunctuationAppend(a: string, b: string)
    ensures RemovePunctuation(a + b) == RemovePunctuation(a) + RemovePunctuation(b)
    decreases |a|
  {
    if a == [] {
      assert a + b == b;
    } else {
      assert (a + b)[0] == a[0];
      assert (a + b)[1..] == a[1..] + b;
      RemovePunctuationAppend(a[1..], b);
    }
  }

  /** Text without any of the punctuation comes through unchanged. */
  lemma {:induction false} RemovePunctuationClean(s: string)
    requires forall i :: 0 <= i < |s| ==> !IsDroppedPunctuation(s[i])
    ensures RemovePunctuation(s) == s
    decreases |s|
  {
    if s != [] {
      RemovePunctuationClean(s[1..]);
      assert s == [s[0]] + s[1..];
    }
  }

  /** `preprocess_text`: lower-case, collapse whitespace runs to one space, strip, drop punctuation. */
  function PreprocessText(text: string): string {
    RemovePunctuation(Strip(CollapseWhitespace(Lower(text))))
  }

  /**
   * The same normalisation stated on words: lower-case, take the words of
   * `str.split()`, join them with single spaces, drop the punctuation.
   */
  lemma PreprocessTextWords(text: string)
    ensures PreprocessText(text) == RemovePunctuation(Join(SplitWords(Lower(text))))
  {
    StripCollapseJoin(Lower(text));
  }

  /** Lower-casing leaves no ASCII capital behind. */
  lemma LowerNoCapitals(s: string)
    ensures forall i :: 0 <= i < |Lower(s)| ==> !('A' <= Lower(s)[i] <= 'Z')
  {
  }

  lemma {:induction false} CollapseKeepsOut(s: string, p: char -> bool)
    requires forall i :: 0 <= i < |s| ==> !p(s[i])
    requires !p(' ')
    ensures forall i :: 0 <= i < |CollapseWhitespace(s)| ==> !p(CollapseWhitespace(s)[i])
    decreases |s|
  {
    if s != [] {
      if IsSpace(s[0]) {
        var rest := TrimLeft(s);
        forall i | 0 <= i < |rest| ensures !p(rest[i]) {
          assert rest[i] == s[|s| - |rest| + i];
        }
        CollapseKeepsOut(rest, p);
      } else {
        CollapseKeepsOut(s[1..], p);
      }
    }
  }

  /** No ASCII capital, and no whitespace but the plain space. */
  predicate Normalised(s: string) {
    forall i :: 0 <= i < |s| ==> !('A' <= s[i] <= 'Z') && (IsSpace(s[i]) ==> s[i] == ' ')
  }

  /**
   * The normalised text has none of the deleted punctuation, no ASCII capital,
   * and no whitespace character other than the plain space.
   */
  lemma PreprocessTextSpec(text: string)
    ensures forall i :: 0 <= i < |PreprocessText(text)| ==>
              var c := PreprocessText(text)[i];
              !IsDroppedPunctuation(c) && !('A' <= c <= 'Z') && (IsSpace(c) ==> c == ' ')
  {
    var collapsed := CollapseWhitespace(Lower(text));
    CollapseKeepsOut(Lower(text), c => 'A' <= c <= 'Z');
    assert Normalised(collapsed);
    StripNormalised(collapsed);
    RemovePunctuationNormalised(Strip(collapsed));
  }

  lemma StripNormalised(s: string)
    requires Normalised(s)
    ensures Normalised(Strip(s))
  {
    var stripped := Strip(s);
    forall i | 0 <= i < |stripped|
      ensures !('A' <= stripped[i] <= 'Z') && (IsSpace(stripped[i]) ==> stripped[i] == ' ')
    {
      assert stripped[i] == s[LeadingSpaces(s) + i];
    }
  }

  lemma RemovePunctuationNormalised(s: string)
    requires Normalised(s)
    ensures Normalised(RemovePunctuation(s))
  {
    var r := RemovePunctuation(s);
    forall i | 0 <= i < |r|
      ensures !('A' <= r[i] <= 'Z') && (IsSpace(r[i]) ==> r[i] == ' ')
    {
      var j :| 0 <= j < |s| && s[j] == r[i];
    }
  }

  // ---------------------------------------------------------------------------
  // find_exact_duplicates

  /**
   * `find_exact_duplicates`: group the paragraphs by hash in input order, then
   * keep the groups with more than one member.
   */
  method FindExactDuplicates(paragraphs: seq<ParagraphData>) returns (duplicateGroups: map<string, seq<ParagraphData>>)
    ensures duplicateGroups == GroupsOf(paragraphs, HashOf, 2)
  {
    var hashGroups: map<string, seq<ParagraphData>> := map[];
    for i := 0 to |paragraphs|
      invariant hashGroups == GroupsOf(paragraphs[..i], HashOf, 1)
    {
      var para := paragraphs[i];
      var paraHash := para.hash;
      GroupsStep(paragraphs[..i], para, HashOf);
      TakeSnoc(paragraphs, i);
      if paraHash in hashGroups {
        hashGroups := hashGroups[paraHash := hashGroups[paraHash] + [para]];
      } else {
        assert [] + [para] == [para];
        hashGroups := hashGroups[paraHash := [para]];
      }
    }
    assert paragraphs[..|paragraphs|] == paragraphs;
    duplicateGroups := map h | h in hashGroups && |hashGroups[h]| > 1 :: hashGroups[h];
    GroupsFilter(paragraphs, HashOf, duplicateGroups);
  }

  /** Every duplicate group has at least two members: those with its hash, in input order. */
  lemma DuplicateGroupsSized(paragraphs: seq<ParagraphData>)
    ensures var g := GroupsOf(paragraphs, HashOf, 2);
            forall h :: h in g ==> |g[h]| >= 2 && g[h] == Members(paragraphs, HashOf, h)
  {
  }

  /** Every member of a duplicate group is an input paragraph carrying the group's hash. */
  lemma DuplicateMembersShareHash(paragraphs: seq<ParagraphData>)
    ensures var g := GroupsOf(paragraphs, HashOf, 2);
            forall h, p :: h in g && p in g[h] ==> p in paragraphs && p.hash == h
  {
    var g := GroupsOf(paragraphs, HashOf, 2);
    forall h, p | h in g && p in g[h] ensures p in paragraphs && p.hash == h {
      MemberIff(paragraphs, HashOf, h, p);
    }
  }

  /**
   * An input paragraph's hash has a duplicate group exactly when that hash
   * occurs at two different positions of the input.
   */
  lemma DuplicateIffRepeated(paragraphs: seq<ParagraphData>, p: ParagraphData)
    requires p in paragraphs
    ensures p.hash in GroupsOf(paragraphs, HashOf, 2)
            <==> exists i, j :: 0 <= i < j < |paragraphs|
                   && paragraphs[i].hash == p.hash && paragraphs[j].hash == p.hash
  {
    TwoMembers(paragraphs, HashOf, p.hash);
    var i :| 0 <= i < |paragraphs| && paragraphs[i] == p;
    assert HashOf(paragraphs[i]) == p.hash;
    assert p.hash in Keys(paragraphs, HashOf);
  }

  // ---------------------------------------------------------------------------
  // get_paragraph_statistics

  /** The integer statistics of `get_paragraph_statistics` (`avg_length` is a float and is left out). */
  datatype ParagraphStats = ParagraphStats(count: nat, minLength: nat, maxLength: nat, totalChars: nat)

  function Lengths(paragraphs: seq<ParagraphData>): (ls: seq<nat>)
    ensures |ls| == |paragraphs| && forall i :: 0 <= i < |ls| ==> ls[i] == |paragraphs[i].text|
  {
    seq(|paragraphs|, i requires 0 <= i < |paragraphs| => |paragraphs[i].text|)
  }

  /** `sum(xs)`. */
  function Sum(xs: seq<nat>): nat {
    if xs == [] then 0 else Sum(xs[..|xs| - 1]) + xs[|xs| - 1]
  }

  /** `min(xs)`: an element no larger than any other. */
  function Min(xs: seq<nat>): (m: nat)
    requires xs != []
    ensures m in xs && forall i :: 0 <= i < |xs| ==> m <= xs[i]
  {
    if |xs| == 1 then xs[0]
    else
      var rest := Min(xs[1..]);
      assert forall i :: 1 <= i < |xs| ==> xs[i] == xs[1..][i - 1];
      if xs[0] <= rest then xs[0] else rest
  }

  /** `max(xs)`: an element no smaller than any other. */
  function Max(xs: seq<nat>): (m: nat)
    requires xs != []
    ensures m in xs && forall i :: 0 <= i < |xs| ==> xs[i] <= m
  {
    if |xs| == 1 then xs[0]
    else
      var rest := Max(xs[1..]);
      assert forall i :: 1 <= i < |xs| ==> xs[i] == xs[1..][i - 1];
      if xs[0] >= rest then xs[0] else rest
  }

  /** `get_paragraph_statistics`: `{}` (here `None`) for no paragraphs. */
  function GetParagraphStatistics(paragraphs: seq<ParagraphData>): Option<ParagraphStats> {
    if paragraphs == [] then None
    else
      var lengths := Lengths(paragraphs);
      Some(ParagraphStats(|paragraphs|, Min(lengths), Max(lengths), Sum(lengths)))
  }

  /** Every length is at most the total. */
  lemma {:induction false} SumBounds(xs: seq<nat>)
    ensures forall i :: 0 <= i < |xs| ==> xs[i] <= Sum(xs)
  {
    if xs != [] {
      SumBounds(xs[..|xs| - 1]);
    }
  }

  /**
   * No statistics exactly for an empty list; otherwise the count is the number
   * of paragraphs, the total is the sum of the text lengths, the minimum and
   * maximum are lengths of actual paragraphs bounding all the others, and
   * minimum <= maximum <= total.
   */
  lemma StatisticsSpec(paragraphs: seq<ParagraphData>)
    ensures GetParagraphStatistics(paragraphs).None? <==> paragraphs == []
    ensures match GetParagraphStatistics(paragraphs)
            case None => true
            case Some(st) =>
              && st.count == |paragraphs|
              && st.totalChars == Sum(Lengths(paragraphs))
              && (exists i :: 0 <= i < |paragraphs| && |paragraphs[i].text| == st.minLength)
              && (exists i :: 0 <= i < |paragraphs| && |paragraphs[i].text| == st.maxLength)
              && (forall i :: 0 <= i < |paragraphs| ==> st.minLength <= |paragraphs[i].text| <= st.maxLength)
              && st.minLength <= st.maxLength <= st.totalChars
  {
    if paragraphs != [] {
      var ls := Lengths(paragraphs);
      SumBounds(ls);
      var i :| 0 <= i < |ls| && ls[i] == Min(ls);
      var j :| 0 <= j < |ls| && ls[j] == Max(ls);
      assert |paragraphs[i].text| == Min(ls);
      assert |paragraphs[j].text| == Max(ls);
    }
  }
}
