/**
 * Paragraph segmentation (`segment_paragraphs` in utils/document.py). As
 * written it collapses whitespace, splits on blank-line paragraph breaks,
 * strips each piece and keeps the non-empty ones; since the collapse removes
 * every line break first, the split never fires, and the document pipeline
 * gets at most one paragraph. That is what the rest of the model uses. The
 * corrected segmentation, which splits first and cleans each piece, is stated
 * beside it with the split it was meant to make.
 */
module Segmentation {
  import opened Wrappers
  import opened Text
  import opened Seqs

  /** The last index at which "\r\n" starts inside `t`, if any. */
  function LastCrLf(t: string): (r: Option<nat>)
    ensures r.Some? ==> r.value + 2 <= |t| && t[r.value] == '\r' && t[r.value + 1] == '\n'
  {
    if |t| < 2 then None
    else if t[|t| - 2] == '\r' && t[|t| - 1] == '\n' then Some(|t| - 2)
    else LastCrLf(t[..|t| - 1])
  }

  /**
   * Where a match of `\n\s*\n|\r\n\s*\r\n` that starts at `i` ends, if one does.
   * The greedy `\s*` runs to the end of the whitespace after the opening line
   * break and then backs off to the last closing line break inside that run.
   */
  function BreakAt(s: string, i: nat): (r: Option<nat>)
    requires i < |s|
    ensures r.Some? ==> i < r.value <= |s| && i + 1 < |s| && (s[i] == '\n' || s[i + 1] == '\n')
  {
    if s[i] == '\n' then
      var run := s[i + 1..][..LeadingSpaces(s[i + 1..])];
      match LastIndexOf(run, '\n')
      case Some(p) => Some(i + 1 + p + 1)
      case None => None
    else if i + 1 < |s| && s[i] == '\r' && s[i + 1] == '\n' then
      var run := s[i + 2..][..LeadingSpaces(s[i + 2..])];
      match LastCrLf(run)
      case Some(p) => Some(i + 2 + p + 2)
      case None => None
    else None
  }

  /** `re.split` of `s[start..]` on paragraph breaks, having found none in `s[start..i]`. */
  function SplitFrom(s: string, start: nat, i: nat): seq<string>
    requires start <= i <= |s|
    decreases |s| - i
  {
    if i == |s| then [s[start..]]
    else match BreakAt(s, i)
      case Some(e) => [s[start..i]] + SplitFrom(s, e, e)
      case None => SplitFrom(s, start, i + 1)
  }

  /** `re.split(r'\n\s*\n|\r\n\s*\r\n', s)`. */
  function SplitBreaks(s: string): seq<string> {
    SplitFrom(s, 0, 0)
  }

  /** With no line feed from `i` on there is no further break: the rest from `start` is one piece. */
  lemma {:induction false} SplitWithoutNewline(s: string, start: nat, i: nat)
    requires start <= i <= |s|
    requires forall t :: i <= t < |s| ==> s[t] != '\n'
    ensures SplitFrom(s, start, i) == [s[start..]]
    decreases |s| - i
  {
    if i < |s| {
      assert BreakAt(s, i) == None;
      SplitWithoutNewline(s, start, i + 1);
    }
  }

  /** Positions `i` to `j` start no break, so the scan passes over them. */
  lemma {:induction false} NoBreakBetween(s: string, start: nat, i: nat, j: nat)
    requires start <= i <= j <= |s|
    requires forall t :: i <= t < j ==> BreakAt(s, t) == None
    ensures SplitFrom(s, start, i) == SplitFrom(s, start, j)
    decreases j - i
  {
    if i < j {
      NoBreakStep(s, start, i);
      NoBreakBetween(s, start, i + 1, j);
    }
  }

  /** A position that starts no break is passed over. */
  lemma NoBreakStep(s: string, start: nat, i: nat)
    requires start <= i < |s| && BreakAt(s, i) == None
    ensures SplitFrom(s, start, i) == SplitFrom(s, start, i + 1)
  {
  }

  /** What the cleaning loop keeps of one piece: the piece stripped, unless that leaves nothing. */
  function StripPiece(piece: string): seq<string> {
    var para := Strip(piece);
    if para != [] then [para] else []
  }

  /**
   * What `segment_paragraphs(text)` returns as written: the whitespace
   * collapse runs before the split, so the split sees no line break.
   */
  function SegmentsAsWritten(text: string): seq<string> {
    FlatMap(StripPiece, SplitBreaks(CollapseWhitespace(text)))
  }

  /**
   * As written there is at most one paragraph, the whole collapsed text
   * stripped, and it holds no line feed.
   */
  lemma SegmentsShape(text: string)
    ensures var p := Strip(CollapseWhitespace(text));
            SegmentsAsWritten(text) == (if p == [] then [] else [p])
    ensures forall k :: 0 <= k < |SegmentsAsWritten(text)| ==>
              SegmentsAsWritten(text)[k] != [] && Trimmed(SegmentsAsWritten(text)[k]) && '\n' !in SegmentsAsWritten(text)[k]
  {
    var collapsed := CollapseWhitespace(text);
    SegmentsWhole(text);
    NoLineFeedAfterCollapse(text);
    StripKeepsOut(collapsed, '\n');
    OneCleanSegment(SegmentsAsWritten(text), Strip(collapsed));
  }

  /** A list holding at most the one trimmed paragraph `p` holds only clean paragraphs. */
  lemma OneCleanSegment(segs: seq<string>, p: string)
    requires segs == (if p == [] then [] else [p]) && Trimmed(p) && '\n' !in p
    ensures forall k :: 0 <= k < |segs| ==> segs[k] != [] && Trimmed(segs[k]) && '\n' !in segs[k]
  {
  }

  /** As written the segments are the whole collapsed text stripped, or none. */
  lemma SegmentsWhole(text: string)
    ensures var p := Strip(CollapseWhitespace(text));
            SegmentsAsWritten(text) == (if p == [] then [] else [p])
  {
    var collapsed := CollapseWhitespace(text);
    NoLineFeedAfterCollapse(text);
    forall t | 0 <= t < |collapsed| ensures collapsed[t] != '\n' {
      assert collapsed[t] in collapsed;
    }
    SplitWithoutNewline(collapsed, 0, 0);
    FlatMapSingle(StripPiece, collapsed);
  }

  /**
   * `segment_paragraphs` as written: collapse the whitespace, split on
   * paragraph breaks, then strip each piece and keep the non-empty ones.
   */
  method SegmentParagraphs(text: string) returns (cleaned: seq<string>)
    ensures cleaned == SegmentsAsWritten(text)
  {
    var collapsed := CollapseWhitespace(text);
    var paragraphs := SplitBreaks(collapsed);
    cleaned := [];
    for i := 0 to |paragraphs|
      invariant cleaned == FlatMap(StripPiece, paragraphs[..i])
    {
      FlatMapSnoc(StripPiece, paragraphs[..i], paragraphs[i]);
      TakeSnoc(paragraphs, i);
      var para := Strip(paragraphs[i]);
      if para != [] {
        cleaned := cleaned + [para];
      }
    }
    assert paragraphs[..|paragraphs|] == paragraphs;
  }

  /**
   * Two paragraphs separated by a blank line come out as at most one as
   * written, where the corrected segmentation gives both.
   */
  lemma BlankLineIgnored(p1: string, p2: string)
    requires p1 != [] && p2 != [] && Trimmed(p1) && Trimmed(p2) && '\n' !in p1 && '\n' !in p2
    ensures |SegmentsAsWritten(p1 + "\n\n" + p2)| <= 1 < |Segments(p1 + "\n\n" + p2)|
  {
    SegmentsShape(p1 + "\n\n" + p2);
    SplitsAtBlankLine(p1, p2);
  }

  /** A piece with its whitespace collapsed and stripped. */
  function Clean(piece: string): string {
    Strip(CollapseWhitespace(piece))
  }

  /** The corrected cleaning of one piece: collapse its whitespace, strip it, drop it if empty. */
  function CleanPiece(piece: string): seq<string> {
    var para := Clean(piece);
    if para != [] then [para] else []
  }

  /**
   * Paragraph segmentation as intended: split the text on blank-line breaks
   * first, then collapse whitespace inside each piece and strip it.
   */
  function Segments(text: string): seq<string> {
    FlatMap(CleanPiece, SplitBreaks(text))
  }

  /** Every corrected paragraph is non-empty, has no whitespace at either end and holds no line feed. */
  lemma SegmentsClean(text: string)
    ensures forall k :: 0 <= k < |Segments(text)| ==>
              Segments(text)[k] != [] && Trimmed(Segments(text)[k]) && '\n' !in Segments(text)[k]
  {
    var pieces := SplitBreaks(text);
    forall k | 0 <= k < |Segments(text)|
      ensures Segments(text)[k] != [] && Trimmed(Segments(text)[k]) && '\n' !in Segments(text)[k]
    {
      FlatMapMember(CleanPiece, pieces, Segments(text)[k]);
      var i :| 0 <= i < |pieces| && Segments(text)[k] in CleanPiece(pieces[i]);
      CleanShape(pieces[i], Segments(text)[k]);
    }
  }

  /** What the cleaning keeps of a piece is non-empty, trimmed and holds no line feed. */
  lemma CleanShape(piece: string, para: string)
    requires para in CleanPiece(piece)
    ensures para != [] && Trimmed(para) && '\n' !in para
  {
    assert para == Clean(piece);
    NoLineFeedAfterCollapse(piece);
    StripKeepsOut(CollapseWhitespace(piece), '\n');
  }

  /** A trimmed non-empty text keeps a paragraph after cleaning. */
  lemma CleanPieceKeeps(p: string)
    requires p != [] && Trimmed(p)
    ensures |CleanPiece(p)| == 1
  {
    var c := CollapseWhitespace(p);
    var k := LeadingSpaces(c);
    assert !IsSpace(c[0]);
  }

  /** One whitespace character followed by a non-whitespace one (or nothing) is one leading space. */
  lemma LeadingSpacesOne(rest: string)
    requires rest != [] && IsSpace(rest[0]) && (|rest| == 1 || !IsSpace(rest[1]))
    ensures LeadingSpaces(rest) == 1
  {
    var k := LeadingSpaces(rest);
  }

  /** Two line feeds followed by non-whitespace (or nothing) are a break that ends right after them. */
  lemma BreakAtBlankLine(s: string, i: nat)
    requires i + 2 <= |s| && s[i] == '\n' && s[i + 1] == '\n'
    requires i + 2 == |s| || !IsSpace(s[i + 2])
    ensures BreakAt(s, i) == Some(i + 2)
  {
    var rest := s[i + 1..];
    assert rest[0] == '\n';
    assert |rest| > 1 ==> rest[1] == s[i + 2];
    LeadingSpacesOne(rest);
    assert rest[..1] == "\n";
    LastIndexOfIs("\n", '\n', 0);
  }

  /** No break starts inside a trimmed text without line feeds, even when a line feed follows it. */
  lemma NoBreakInside(p1: string, s: string)
    requires p1 != [] && Trimmed(p1) && '\n' !in p1 && |p1| < |s| && s[..|p1|] == p1
    ensures forall t :: 0 <= t < |p1| ==> BreakAt(s, t) == None
  {
    forall t | 0 <= t < |p1| ensures BreakAt(s, t) == None {
      assert s[t] == p1[t] && p1[t] in p1;
      if t + 1 < |p1| {
        assert s[t + 1] == p1[t + 1] && p1[t + 1] in p1;
      }
    }
  }

  /** The split finds exactly the blank line between two trimmed single-line texts. */
  lemma SplitBlankLine(p1: string, p2: string)
    requires p1 != [] && p2 != [] && Trimmed(p1) && Trimmed(p2) && '\n' !in p1 && '\n' !in p2
    ensures SplitBreaks(p1 + "\n\n" + p2) == [p1, p2]
  {
    var s := p1 + "\n\n" + p2;
    BlankLineText(p1, p2, s);
    ScanFirstLine(p1, s);
    SplitAfterFirstLine(p1, p2, s);
  }

  /** The scan passes over the first line without finding a break. */
  lemma ScanFirstLine(p1: string, s: string)
    requires p1 != [] && Trimmed(p1) && '\n' !in p1 && |p1| < |s| && s[..|p1|] == p1
    ensures SplitFrom(s, 0, 0) == SplitFrom(s, 0, |p1|)
  {
    NoBreakInside(p1, s);
    NoBreakBetween(s, 0, 0, |p1|);
  }

  /** At the blank line the first piece closes, and the second line is the last piece. */
  lemma SplitAfterFirstLine(p1: string, p2: string, s: string)
    requires p2 != [] && '\n' !in p2
    requires |s| == |p1| + 2 + |p2| && s[0..|p1|] == p1 && s[|p1| + 2..] == p2
    requires s[|p1|] == '\n' && s[|p1| + 1] == '\n' && !IsSpace(s[|p1| + 2])
    ensures SplitFrom(s, 0, |p1|) == [p1, p2]
  {
    var e := |p1| + 2;
    BreakAtBlankLine(s, |p1|);
    BreakStep(s, 0, |p1|, e);
    SplitRestWhole(s, e, p2);
    assert [s[0..|p1|]] + [p2] == [p1, p2];
  }

  /** Where the parts of `p1 + "\n\n" + p2` sit. */
  lemma BlankLineText(p1: string, p2: string, s: string)
    requires p2 != [] && s == p1 + "\n\n" + p2
    ensures |s| == |p1| + 2 + |p2|
    ensures s[..|p1|] == p1 && s[0..|p1|] == p1 && s[|p1| + 2..] == p2
    ensures s[|p1|] == '\n' && s[|p1| + 1] == '\n' && s[|p1| + 2] == p2[0]
  {
  }

  /** A break at `i` ending at `e` closes the current piece and starts the next at `e`. */
  lemma BreakStep(s: string, start: nat, i: nat, e: nat)
    requires start <= i < |s| && BreakAt(s, i) == Some(e)
    ensures SplitFrom(s, start, i) == [s[start..i]] + SplitFrom(s, e, e)
  {
  }

  /** The rest of the text from `e` has no line feed, so it is the last piece. */
  lemma SplitRestWhole(s: string, e: nat, rest: string)
    requires e <= |s| && s[e..] == rest && '\n' !in rest
    ensures SplitFrom(s, e, e) == [rest]
  {
    forall t | e <= t < |s| ensures s[t] != '\n' {
      assert s[t] == rest[t - e] && rest[t - e] in rest;
    }
    SplitWithoutNewline(s, e, e);
  }

  /** A text without line feeds is one piece. */
  lemma SplitWhole(p: string)
    requires '\n' !in p
    ensures SplitBreaks(p) == [p]
  {
    forall t | 0 <= t < |p| ensures p[t] != '\n' {
      assert p[t] in p;
    }
    SplitWithoutNewline(p, 0, 0);
  }

  /** Corrected segmentation splits at a blank line: each side is its own paragraph. */
  lemma SplitsAtBlankLine(p1: string, p2: string)
    requires p1 != [] && p2 != [] && Trimmed(p1) && Trimmed(p2) && '\n' !in p1 && '\n' !in p2
    ensures SplitBreaks(p1 + "\n\n" + p2) == [p1, p2]
    ensures Segments(p1 + "\n\n" + p2) == Segments(p1) + Segments(p2)
    ensures |Segments(p1 + "\n\n" + p2)| == 2
  {
    SplitBlankLine(p1, p2);
    SplitWhole(p1);
    SplitWhole(p2);
    assert [p1, p2] == [p1] + [p2];
    FlatMapAppend(CleanPiece, [p1], [p2]);
    FlatMapSingle(CleanPiece, p1);
    FlatMapSingle(CleanPiece, p2);
    CleanPieceKeeps(p1);
    CleanPieceKeeps(p2);
  }

  /** The collapse leaves no line feed: it is whitespace, so it became a space. */
  lemma NoLineFeedAfterCollapse(text: string)
    ensures '\n' !in CollapseWhitespace(text)
  {
    assert IsSpace('\n');
  }

  /** A character absent from `s` is absent from `s.strip()`, which is a slice of it. */
  lemma StripKeepsOut(s: string, c: char)
    requires c !in s
    ensures c !in Strip(s)
  {
    var p := Strip(s);
    forall j | 0 <= j < |p| ensures p[j] != c {
      assert p[j] == s[LeadingSpaces(s) + j];
    }
  }
}
