/**
 * Placeholder scanning (`find_variables` in utils/document.py) for the three
 * built-in delimiter patterns `<<name>>`, `{{name}}` and `${name}`. The regular
 * expressions are modelled by a scanner that does what Python's `finditer`
 * does for each of them.
 */
module Placeholders {
  import opened Wrappers
  import opened Text
  import opened Seqs

  /** The three delimiter styles `find_variables` understands. */
  datatype PatternKind = Angle | DoubleBrace | DollarBrace

  /** The built-in patterns, written exactly as the configuration lists them. */
  const AnglePattern: string := @"<<([^>]+)>>"
  const DoubleBracePattern: string := @"\{\{([^}]+)\}\}"
  const DollarBracePattern: string := @"\$\{([^}]+)\}"
  const VariablePatterns: seq<string> := [AnglePattern, DoubleBracePattern, DollarBracePattern]

  /** The `pattern_type` tags recorded for each style. */
  const AngleTag: string := "<<>>"
  const DoubleBraceTag: string := "{{}}"
  const DollarBraceTag: string := "${}"

  /** `find_variables` recognises a pattern only when it is one of the three built-in strings. */
  function KindOfPattern(pattern: string): Option<PatternKind> {
    if pattern == AnglePattern then Some(Angle)
    else if pattern == DoubleBracePattern then Some(DoubleBrace)
    else if pattern == DollarBracePattern then Some(DollarBrace)
    else None
  }

  /** The three tags are different strings. */
  lemma TagsDistinct()
    ensures AngleTag != DoubleBraceTag && AngleTag != DollarBraceTag && DoubleBraceTag != DollarBraceTag
  {
    assert AngleTag[0] != DoubleBraceTag[0];
    assert |AngleTag| == |DoubleBraceTag| == 4 && |DollarBraceTag| == 3;
  }

  function Tag(k: PatternKind): string {
    match k
    case Angle => AngleTag
    case DoubleBrace => DoubleBraceTag
    case DollarBrace => DollarBraceTag
  }

  function Opener(k: PatternKind): string {
    match k
    case Angle => "<<"
    case DoubleBrace => "{{"
    case DollarBrace => "${"
  }

  /** The character the captured group `[^>]+` / `[^}]+` may not contain. */
  function Stop(k: PatternKind): char {
    match k
    case Angle => '>'
    case DoubleBrace => '}'
    case DollarBrace => '}'
  }

  function Closer(k: PatternKind): string {
    match k
    case Angle => ">>"
    case DoubleBrace => "}}"
    case DollarBrace => "}"
  }

  lemma CloserStartsWithStop(k: PatternKind)
    ensures |Closer(k)| >= 1 && Closer(k)[0] == Stop(k)
  {
  }

  /** The length of the longest prefix of `s` free of `c`. */
  function RunWithout(s: string, c: char): (n: nat)
    ensures n <= |s| && c !in s[..n] && (n < |s| ==> s[n] == c)
  {
    if s == [] || s[0] == c then 0
    else
      var n := 1 + RunWithout(s[1..], c);
      assert s[..n] == [s[0]] + s[1..][..n - 1];
      n
  }

  /**
   * The end of the captured group of a match of pattern `k` starting at `i`, if
   * one starts there. The greedy group runs to the first `Stop(k)`; the match
   * needs a non-empty group followed by the closing delimiter (backing off
   * cannot help: it would put a non-stop character where the closer must start).
   */
  function MatchAt(s: string, i: nat, k: PatternKind): (r: Option<nat>)
    ensures r.Some? ==>
              i + |Opener(k)| < r.value && r.value + |Closer(k)| <= |s|
              && s[i..i + |Opener(k)|] == Opener(k)
              && Stop(k) !in s[i + |Opener(k)|..r.value]
              && s[r.value..r.value + |Closer(k)|] == Closer(k)
  {
    var o := Opener(k);
    var c := Closer(k);
    if i + |o| <= |s| && s[i..i + |o|] == o then
      var g := i + |o|;
      var e := g + RunWithout(s[g..], Stop(k));
      assert s[g..e] == s[g..][..e - g];
      if e > g && e + |c| <= |s| && s[e..e + |c|] == c then Some(e) else None
    else None
  }

  /** One regex match: the captured group and the whole matched text. */
  datatype RawMatch = RawMatch(group: string, full: string)

  /** A match of pattern `k`: a non-empty group free of the stop character, inside the delimiters. */
  predicate WellFormedMatch(m: RawMatch, k: PatternKind) {
    m.group != [] && Stop(k) !in m.group && m.full == Opener(k) + m.group + Closer(k)
  }

  /** `regex.finditer(s)` for pattern `k`, from position `i`: non-overlapping matches, left to right. */
  function FindIter(s: string, k: PatternKind, i: nat): (ms: seq<RawMatch>)
    requires i <= |s|
    ensures forall j :: 0 <= j < |ms| ==> WellFormedMatch(ms[j], k)
    decreases |s| - i
  {
    if i == |s| then []
    else match MatchAt(s, i, k)
      case Some(e) =>
        var m := MatchFound(s, i, k, e);
        [m] + FindIter(s, k, e + |Closer(k)|)
      case None => FindIter(s, k, i + 1)
  }

  /** The match that `MatchAt` reports at `i`, ending its group at `e`. */
  function MatchFound(s: string, i: nat, k: PatternKind, e: nat): (m: RawMatch)
    requires MatchAt(s, i, k) == Some(e)
    ensures WellFormedMatch(m, k)
  {
    MatchText(s, i, k, e);
    RawMatch(s[i + |Opener(k)|..e], s[i..e + |Closer(k)|])
  }

  /** The text of a match is the opener, the group and the closer. */
  lemma MatchText(s: string, i: nat, k: PatternKind, e: nat)
    requires MatchAt(s, i, k) == Some(e)
    ensures i + |Opener(k)| < e && e + |Closer(k)| <= |s|
    ensures s[i..e + |Closer(k)|] == Opener(k) + s[i + |Opener(k)|..e] + Closer(k)
    ensures Stop(k) !in s[i + |Opener(k)|..e]
  {
    Framed(s, i, i + |Opener(k)|, e, e + |Closer(k)|, Opener(k), Closer(k));
  }

  /** One placeholder found in a text: `{'name', 'pattern_type', 'full_match'}`. */
  datatype VariableOccurrence = VariableOccurrence(name: string, patternType: string, fullMatch: string)

  /** What one match contributes: the stripped group as the name, unless it strips to nothing. */
  function Occurrence(k: PatternKind, m: RawMatch): seq<VariableOccurrence> {
    var name := Strip(m.group);
    if name != [] then [VariableOccurrence(name, Tag(k), m.full)] else []
  }

  /** The occurrences emitted for the matches of one pattern, left to right. */
  function OccurrencesOf(ms: seq<RawMatch>, k: PatternKind): seq<VariableOccurrence> {
    FlatMap((m: RawMatch) => Occurrence(k, m), ms)
  }

  /** The occurrences one pattern string contributes: nothing unless it is a built-in pattern. */
  function PatternVariables(text: string, pattern: string): seq<VariableOccurrence> {
    match KindOfPattern(pattern)
    case None => []
    case Some(k) => OccurrencesOf(FindIter(text, k, 0), k)
  }

  /** What `find_variables(text, patterns)` returns: pattern by pattern, matches left to right. */
  function Variables(text: string, patterns: seq<string>): seq<VariableOccurrence> {
    FlatMap((p: string) => PatternVariables(text, p), patterns)
  }

  /** `find_variables`: a loop over the patterns around a loop over each pattern's matches. */
  method FindVariables(text: string, patterns: seq<string>) returns (variables: seq<VariableOccurrence>)
    ensures variables == Variables(text, patterns)
  {
    variables := [];
    for p := 0 to |patterns|
      invariant variables == Variables(text, patterns[..p])
    {
      FlatMapSnoc((q: string) => PatternVariables(text, q), patterns[..p], patterns[p]);
      TakeSnoc(patterns, p);
      var kind := KindOfPattern(patterns[p]);
      if kind.None? {
        continue;
      }
      var k := kind.value;
      var matches := FindIter(text, k, 0);
      variables := AppendMatches(k, matches, variables);
    }
    assert patterns[..|patterns|] == patterns;
  }

  /** The inner loop of `find_variables`: one entry per match whose stripped name is not empty. */
  method AppendMatches(k: PatternKind, matches: seq<RawMatch>, before: seq<VariableOccurrence>)
    returns (variables: seq<VariableOccurrence>)
    ensures variables == before + OccurrencesOf(matches, k)
  {
    variables := before;
    for j := 0 to |matches|
      invariant variables == before + OccurrencesOf(matches[..j], k)
    {
      FlatMapSnoc((m: RawMatch) => Occurrence(k, m), matches[..j], matches[j]);
      TakeSnoc(matches, j);
      ghost var prev := variables;
      var name := Strip(matches[j].group);
      if name != [] {
        variables := variables + [VariableOccurrence(name, Tag(k), matches[j].full)];
      }
      assert variables == prev + Occurrence(k, matches[j]);
      ConcatAssoc(before, OccurrencesOf(matches[..j], k), Occurrence(k, matches[j]));
    }
    assert matches[..|matches|] == matches;
  }

  /** The properties every emitted placeholder of kind `k` has. */
  predicate WellFormedOccurrence(v: VariableOccurrence, k: PatternKind) {
    v.patternType == Tag(k) && v.name != [] && Trimmed(v.name) && Stop(k) !in v.name
  }

  /** A match's occurrence carries the kind's tag and a non-empty trimmed name free of the stop character. */
  lemma OccurrenceWellFormed(k: PatternKind, m: RawMatch, v: VariableOccurrence)
    requires WellFormedMatch(m, k) && v in Occurrence(k, m)
    ensures WellFormedOccurrence(v, k)
  {
    var name := Strip(m.group);
    forall j | 0 <= j < |name| ensures name[j] != Stop(k) {
      assert name[j] == m.group[LeadingSpaces(m.group) + j];
      assert m.group[LeadingSpaces(m.group) + j] in m.group;
    }
  }

  /**
   * What `find_variables` promises of every result: it comes from a built-in
   * pattern that is in the list, carries that pattern's tag ('<<>>', '{{}}' or
   * '${}'), and has a non-empty trimmed name free of '>' (for '<<>>') or '}'
   * (for the two brace kinds).
   */
  lemma VariablesWellFormed(text: string, patterns: seq<string>, v: VariableOccurrence)
    requires v in Variables(text, patterns)
    ensures exists k :: Pattern(k) in patterns && WellFormedOccurrence(v, k)
  {
    FlatMapMember((p: string) => PatternVariables(text, p), patterns, v);
    var i :| 0 <= i < |patterns| && v in PatternVariables(text, patterns[i]);
    var k := KindOfPattern(patterns[i]).value;
    PatternOfKind(patterns[i]);
    var ms := FindIter(text, k, 0);
    FlatMapMember((m: RawMatch) => Occurrence(k, m), ms, v);
    var j :| 0 <= j < |ms| && v in Occurrence(k, ms[j]);
    OccurrenceWellFormed(k, ms[j], v);
  }

  /** A recognised pattern string is the built-in pattern of its kind. */
  lemma PatternOfKind(p: string)
    requires KindOfPattern(p).Some?
    ensures Pattern(KindOfPattern(p).value) == p
  {
  }

  /** The built-in pattern string of each kind. */
  function Pattern(k: PatternKind): (p: string)
    ensures KindOfPattern(p) == Some(k)
  {
    match k
    case Angle => AnglePattern
    case DoubleBrace => DoubleBracePattern
    case DollarBrace => DollarBracePattern
  }

  /** A pattern string that is not one of the three built-ins contributes nothing. */
  lemma UnknownPatternIgnored(text: string, patterns: seq<string>, other: string)
    requires KindOfPattern(other) == None
    ensures Variables(text, patterns + [other]) == Variables(text, patterns)
  {
    FlatMapSnoc((p: string) => PatternVariables(text, p), patterns, other);
  }

  /**
   * Results come pattern by pattern: those of a list of patterns are those of
   * its parts, in order, with nothing merged or removed between them.
   */
  lemma VariablesAppend(text: string, ps: seq<string>, qs: seq<string>)
    ensures Variables(text, ps + qs) == Variables(text, ps) + Variables(text, qs)
  {
    FlatMapAppend((p: string) => PatternVariables(text, p), ps, qs);
  }

  /** Within one pattern, results follow the matches left to right. */
  lemma OccurrencesAppend(k: PatternKind, ms: seq<RawMatch>, ns: seq<RawMatch>)
    ensures OccurrencesOf(ms + ns, k) == OccurrencesOf(ms, k) + OccurrencesOf(ns, k)
  {
    FlatMapAppend((m: RawMatch) => Occurrence(k, m), ms, ns);
  }

  /** Scanning stops at the first stop character: the run before it is exactly `a`. */
  lemma {:induction false} RunWithoutPrefix(a: string, b: string, c: char)
    requires c !in a && b != [] && b[0] == c
    ensures RunWithout(a + b, c) == |a|
  {
    if a != [] {
      assert (a + b)[0] == a[0];
      assert (a + b)[1..] == a[1..] + b;
      assert a[0] in a;
      RunWithoutPrefix(a[1..], b, c);
    } else {
      assert a + b == b;
    }
  }

  /**
   * A placeholder written out with its delimiters is found by the scanner as
   * exactly one match whose group is the name.
   */
  lemma ScanWrapped(name: string, k: PatternKind)
    requires name != [] && Stop(k) !in name
    ensures var s := Opener(k) + name + Closer(k);
            FindIter(s, k, 0) == [RawMatch(name, s)]
  {
    var s := Opener(k) + name + Closer(k);
    var e := |Opener(k)| + |name|;
    MatchWrapped(name, k);
    assert s[0..e + |Closer(k)|] == s;
    assert FindIter(s, k, e + |Closer(k)|) == [];
  }

  /** The match at the start of a wrapped name ends its group where the name ends. */
  lemma MatchWrapped(name: string, k: PatternKind)
    requires name != [] && Stop(k) !in name
    ensures var s := Opener(k) + name + Closer(k);
            MatchAt(s, 0, k) == Some(|Opener(k)| + |name|)
            && s[|Opener(k)|..|Opener(k)| + |name|] == name
  {
    var o := Opener(k);
    var c := Closer(k);
    ThreeParts(o, name, c);
    CloserStartsWithStop(k);
    RunWithoutPrefix(name, c, Stop(k));
  }

  /**
   * Round trip: scanning `<<name>>`, `{{name}}` or `${name}` with the matching
   * built-in pattern finds exactly that placeholder, with its name and tag,
   * when the name is non-empty, trimmed and free of the closing character.
   */
  lemma FindWrapped(name: string, k: PatternKind)
    requires name != [] && Trimmed(name) && Stop(k) !in name
    ensures var s := Opener(k) + name + Closer(k);
            Variables(s, [Pattern(k)]) == [VariableOccurrence(name, Tag(k), s)]
  {
    var s := Opener(k) + name + Closer(k);
    ScanWrapped(name, k);
    StripTrimmed(name);
    FlatMapSingle((m: RawMatch) => Occurrence(k, m), RawMatch(name, s));
    FlatMapSingle((p: string) => PatternVariables(s, p), Pattern(k));
  }
}
