/**
 * `findTextDifferences` of static/js-main.js: both texts are split into words,
 * a longest-common-subsequence table is filled, the table is walked back from
 * its far corner to mark each word as kept, removed (left text) or added
 * (right text), and the two marked word lists are rendered as HTML spans with
 * each word escaped.
 *
 * The table and the walk are methods over an `array2` with the loops of the
 * source; `Lcs` and `DiffFrom` are the functions they are proved against, and
 * the lemmas show what the walk promises: each side spells its text, the kept
 * words are the same on both sides, and they form a longest common
 * subsequence.
 */
module TextDiff {
  import opened Seqs
  import opened Text
  import opened HtmlEscape

  // ---------------------------------------------------------------------------
  // text.split(/\s+/)

  /** JavaScript's `\s`: the ECMAScript white space and line terminator characters. */
  predicate IsJsSpace(c: char) {
    || c == ' '
    || ('\t' <= c <= '\r')
    || c == '\U{A0}' || c == '\U{1680}'
    || ('\U{2000}' <= c <= '\U{200A}')
    || c == '\U{2028}' || c == '\U{2029}' || c == '\U{202F}' || c == '\U{205F}' || c == '\U{3000}'
    || c == '\U{FEFF}'
  }

  predicate NoJsSpace(s: string) {
    forall k :: 0 <= k < |s| ==> !IsJsSpace(s[k])
  }

  /** The length of the longest prefix of `s` without white space. */
  function WordLength(s: string): (n: nat)
    ensures n <= |s| && NoJsSpace(s[..n]) && (n < |s| ==> IsJsSpace(s[n]))
  {
    if s == [] || IsJsSpace(s[0]) then 0
    else
      var n := 1 + WordLength(s[1..]);
      assert s[..n] == [s[0]] + s[1..][..n - 1];
      n
  }

  /** The length of the run of white space that starts `s`. */
  function SpaceLength(s: string): (n: nat)
    ensures n <= |s| && (n < |s| ==> !IsJsSpace(s[n]))
    ensures s != [] && IsJsSpace(s[0]) ==> n > 0
  {
    if s == [] || !IsJsSpace(s[0]) then 0 else 1 + SpaceLength(s[1..])
  }

  /**
   * `text.split(/\s+/)`: the pieces between maximal runs of white space. A
   * run at either end leaves an empty piece there, and the empty text gives
   * one empty piece.
   */
  function SplitWs(s: string): (fields: seq<string>)
    ensures |fields| >= 1
    ensures forall i :: 0 <= i < |fields| ==> NoJsSpace(fields[i])
    decreases |s|
  {
    var w := WordLength(s);
    if w == |s| then
      assert s[..w] == s;
      [s]
    else
      var rest := s[w..];
      [s[..w]] + SplitWs(rest[SpaceLength(rest)..])
  }

  lemma {:induction false} WordLengthBeforeSpace(w: string, rest: string)
    requires NoJsSpace(w)
    ensures WordLength(w + " " + rest) == |w|
    decreases |w|
  {
    if w != [] {
      assert (w + " " + rest)[1..] == w[1..] + " " + rest;
      WordLengthBeforeSpace(w[1..], rest);
    }
  }

  lemma {:induction false} WordLengthWhole(w: string)
    requires NoJsSpace(w)
    ensures WordLength(w) == |w|
    decreases |w|
  {
    if w != [] {
      WordLengthWhole(w[1..]);
    }
  }

  lemma JoinStartsWithWord(ws: seq<string>)
    requires |ws| >= 1 && ws[0] != []
    ensures Join(ws) != [] && Join(ws)[0] == ws[0][0]
  {
  }

  /**
   * Splitting the words joined by single spaces gives the words back, when
   * they are non-empty and hold no white space.
   */
  lemma {:induction false} SplitWsJoin(ws: seq<string>)
    requires |ws| >= 1
    requires forall i :: 0 <= i < |ws| ==> ws[i] != [] && NoJsSpace(ws[i])
    ensures SplitWs(Join(ws)) == ws
    decreases |ws|
  {
    if |ws| == 1 {
      WordLengthWhole(ws[0]);
    } else {
      var tail := ws[1..];
      var j := Join(tail);
      var s := ws[0] + " " + j;
      assert Join(ws) == s;
      JoinStartsWithWord(tail);
      WordLengthBeforeSpace(ws[0], j);
      assert s[..|ws[0]|] == ws[0];
      var rest := s[|ws[0]|..];
      assert rest == " " + j;
      assert SpaceLength(rest) == 1;
      assert rest[1..] == j;
      SplitWsJoin(tail);
      assert ws == [ws[0]] + tail;
    }
  }

  /** The characters of `s` that are not white space, in order. */
  function Visible(s: string): string {
    FlatMap((c: char) => if IsJsSpace(c) then [] else [c], s)
  }

  lemma VisibleAppend(a: string, b: string)
    ensures Visible(a + b) == Visible(a) + Visible(b)
  {
    FlatMapAppend((c: char) => if IsJsSpace(c) then [] else [c], a, b);
  }

  lemma {:induction false} VisibleWord(w: string)
    requires NoJsSpace(w)
    ensures Visible(w) == w
    decreases |w|
  {
    if w != [] {
      var n := |w| - 1;
      assert w == w[..n] + [w[n]];
      VisibleWord(w[..n]);
      FlatMapSnoc((c: char) => if IsJsSpace(c) then [] else [c], w[..n], w[n]);
    }
  }

  lemma {:induction false} VisibleSpaces(s: string, n: nat)
    requires n == SpaceLength(s)
    ensures Visible(s[..n]) == []
    decreases |s|
  {
    if n > 0 {
      assert s[..n] == [s[0]] + s[1..][..n - 1];
      VisibleAppend([s[0]], s[1..][..n - 1]);
      FlatMapSingle((c: char) => if IsJsSpace(c) then [] else [c], s[0]);
      VisibleSpaces(s[1..], n - 1);
    }
  }

  /** The split drops the white space and nothing else: its pieces spell the visible characters. */
  lemma {:induction false} SplitWsVisible(s: string)
    ensures Concat(SplitWs(s)) == Visible(s)
    decreases |s|
  {
    var w := WordLength(s);
    if w == |s| {
      assert s[..w] == s;
      VisibleWord(s);
      assert Concat([s]) == Concat([s] + []);
      ConcatCons(s, []);
    } else {
      var rest := s[w..];
      var k := SpaceLength(rest);
      SplitWsVisible(rest[k..]);
      ConcatCons(s[..w], SplitWs(rest[k..]));
      VisibleAfterWord(s, w, k);
    }
  }

  /** A word, then a run of white space, then the rest: only the word and the rest are visible. */
  lemma VisibleAfterWord(s: string, w: nat, k: nat)
    requires w <= |s| && NoJsSpace(s[..w]) && k == SpaceLength(s[w..])
    ensures Visible(s) == s[..w] + Visible(s[w..][k..])
  {
    var rest := s[w..];
    assert s == s[..w] + rest;
    VisibleAppend(s[..w], rest);
    VisibleWord(s[..w]);
    VisibleAfterSpaces(rest, k);
  }

  lemma VisibleAfterSpaces(rest: string, k: nat)
    requires k == SpaceLength(rest)
    ensures Visible(rest) == Visible(rest[k..])
  {
    assert rest == rest[..k] + rest[k..];
    VisibleAppend(rest[..k], rest[k..]);
    VisibleSpaces(rest, k);
  }

  // ---------------------------------------------------------------------------
  // The longest-common-subsequence table

  /** The recurrence the table is filled by: the LCS length of `a[..i]` and `b[..j]`. */
  function Lcs(a: seq<string>, b: seq<string>, i: nat, j: nat): nat
    requires i <= |a| && j <= |b|
    decreases i + j
  {
    if i == 0 || j == 0 then 0
    else if a[i - 1] == b[j - 1] then Lcs(a, b, i - 1, j - 1) + 1
    else
      var up, left := Lcs(a, b, i - 1, j), Lcs(a, b, i, j - 1);
      if up >= left then up else left
  }

  /** `c` can be obtained from `s` by deleting elements. */
  predicate Subseq<T(==)>(c: seq<T>, s: seq<T>)
    decreases |s|
  {
    || c == []
    || (s != [] && ((c[|c| - 1] == s[|s| - 1] && Subseq(c[..|c| - 1], s[..|s| - 1]))
                    || Subseq(c, s[..|s| - 1])))
  }

  /** One more word on either side raises the table entry by at most one, and never lowers it. */
  lemma {:induction false} LcsSteps(a: seq<string>, b: seq<string>, i: nat, j: nat)
    requires i <= |a| && j <= |b|
    ensures i >= 1 ==> Lcs(a, b, i - 1, j) <= Lcs(a, b, i, j) <= Lcs(a, b, i - 1, j) + 1
    ensures j >= 1 ==> Lcs(a, b, i, j - 1) <= Lcs(a, b, i, j) <= Lcs(a, b, i, j - 1) + 1
    decreases i + j
  {
    if i >= 1 && j >= 1 {
      LcsSteps(a, b, i - 1, j);
      LcsSteps(a, b, i, j - 1);
      LcsSteps(a, b, i - 1, j - 1);
    }
  }

  /** No common subsequence of `a[..i]` and `b[..j]` is longer than the table entry. */
  lemma {:induction false} LcsUpperBound(a: seq<string>, b: seq<string>, i: nat, j: nat, c: seq<string>)
    requires i <= |a| && j <= |b|
    requires Subseq(c, a[..i]) && Subseq(c, b[..j])
    ensures |c| <= Lcs(a, b, i, j)
    decreases i + j
  {
    if c != [] {
      assert i > 0 && j > 0;
      LcsSteps(a, b, i, j);
      assert a[..i][..i - 1] == a[..i - 1];
      assert b[..j][..j - 1] == b[..j - 1];
      if Subseq(c, a[..i - 1]) {
        LcsUpperBound(a, b, i - 1, j, c);
      } else if Subseq(c, b[..j - 1]) {
        LcsUpperBound(a, b, i, j - 1, c);
      } else {
        LcsUpperBound(a, b, i - 1, j - 1, c[..|c| - 1]);
      }
    }
  }

  /** `Subseq` is kept when one element is added to both sides. */
  lemma SubseqSnoc<T>(c: seq<T>, s: seq<T>, x: T)
    requires Subseq(c, s)
    ensures Subseq(c + [x], s + [x])
  {
    assert (c + [x])[..|c|] == c;
    assert (s + [x])[..|s|] == s;
  }

  /** `Subseq` is kept when an element is added to the longer side only. */
  lemma SubseqExtend<T>(c: seq<T>, s: seq<T>, x: T)
    requires Subseq(c, s)
    ensures Subseq(c, s + [x])
  {
    assert (s + [x])[..|s|] == s;
  }

  // ---------------------------------------------------------------------------
  // The marked words

  /** An entry of `diff1` or `diff2`. */
  datatype Part = Part(text: string, added: bool, removed: bool)

  /** Both marked lists. */
  datatype Diff = Diff(left: seq<Part>, right: seq<Part>)

  /** The texts of the entries, in order. */
  function Texts(d: seq<Part>): seq<string> {
    FlatMap((p: Part) => [p.text], d)
  }

  /** The texts of the entries marked neither added nor removed, in order. */
  function SameTexts(d: seq<Part>): seq<string> {
    FlatMap((p: Part) => if !p.added && !p.removed then [p.text] else [], d)
  }

  /**
   * What the walk back from `(i, j)` produces, as the lists read after it
   * reaches `(0, 0)`: the walk prepends, so the entry chosen at `(i, j)` ends
   * up after everything chosen from the cell it moves to.
   */
  function DiffFrom(a: seq<string>, b: seq<string>, i: nat, j: nat): Diff
    requires i <= |a| && j <= |b|
    decreases i + j
  {
    if i == 0 && j == 0 then Diff([], [])
    else if i > 0 && j > 0 && a[i - 1] == b[j - 1] then
      var d := DiffFrom(a, b, i - 1, j - 1);
      Diff(d.left + [Part(a[i - 1], false, false)], d.right + [Part(b[j - 1], false, false)])
    else if j > 0 && (i == 0 || Lcs(a, b, i, j - 1) >= Lcs(a, b, i - 1, j)) then
      var d := DiffFrom(a, b, i, j - 1);
      Diff(d.left, d.right + [Part(b[j - 1], true, false)])
    else
      var d := DiffFrom(a, b, i - 1, j);
      Diff(d.left + [Part(a[i - 1], false, true)], d.right)
  }

  /** The diff of two whole word lists. */
  function DiffOf(a: seq<string>, b: seq<string>): Diff {
    DiffFrom(a, b, |a|, |b|)
  }

  lemma TextsSnoc(d: seq<Part>, p: Part)
    ensures Texts(d + [p]) == Texts(d) + [p.text]
    ensures SameTexts(d + [p]) == SameTexts(d) + (if !p.added && !p.removed then [p.text] else [])
  {
    FlatMapSnoc((q: Part) => [q.text], d, p);
    FlatMapSnoc((q: Part) => if !q.added && !q.removed then [q.text] else [], d, p);
  }

  /** The left list spells `a[..i]`. */
  lemma {:induction false} DiffTextsLeft(a: seq<string>, b: seq<string>, i: nat, j: nat)
    requires i <= |a| && j <= |b|
    ensures Texts(DiffFrom(a, b, i, j).left) == a[..i]
    decreases i + j
  {
    if i == 0 && j == 0 {
    } else if i > 0 && j > 0 && a[i - 1] == b[j - 1] {
      DiffTextsLeft(a, b, i - 1, j - 1);
      LeftKeep(a, b, i, j);
    } else if j > 0 && (i == 0 || Lcs(a, b, i, j - 1) >= Lcs(a, b, i - 1, j)) {
      DiffTextsLeft(a, b, i, j - 1);
      LeftAdd(a, b, i, j);
    } else {
      DiffTextsLeft(a, b, i - 1, j);
      LeftRemove(a, b, i, j);
    }
  }

  /** The right list spells `b[..j]`. */
  lemma {:induction false} DiffTextsRight(a: seq<string>, b: seq<string>, i: nat, j: nat)
    requires i <= |a| && j <= |b|
    ensures Texts(DiffFrom(a, b, i, j).right) == b[..j]
    decreases i + j
  {
    if i == 0 && j == 0 {
    } else if i > 0 && j > 0 && a[i - 1] == b[j - 1] {
      DiffTextsRight(a, b, i - 1, j - 1);
      RightKeep(a, b, i, j);
    } else if j > 0 && (i == 0 || Lcs(a, b, i, j - 1) >= Lcs(a, b, i - 1, j)) {
      DiffTextsRight(a, b, i, j - 1);
      RightAdd(a, b, i, j);
    } else {
      DiffTextsRight(a, b, i - 1, j);
      RightRemove(a, b, i, j);
    }
  }

  /** Appending an entry for `words[n - 1]` to a list spelling `words[..n - 1]` spells `words[..n]`. */
  lemma TextsExtend(prev: seq<Part>, p: Part, words: seq<string>, n: nat)
    requires 0 < n <= |words| && Texts(prev) == words[..n - 1] && p.text == words[n - 1]
    ensures Texts(prev + [p]) == words[..n]
  {
    TextsSnoc(prev, p);
    TakeSnoc(words, n - 1);
  }

  lemma LeftKeep(a: seq<string>, b: seq<string>, i: nat, j: nat)
    requires 0 < i <= |a| && 0 < j <= |b| && a[i - 1] == b[j - 1]
    requires Texts(DiffFrom(a, b, i - 1, j - 1).left) == a[..i - 1]
    ensures Texts(DiffFrom(a, b, i, j).left) == a[..i]
  {
    var e := DiffFrom(a, b, i - 1, j - 1);
    assert DiffFrom(a, b, i, j).left == e.left + [Part(a[i - 1], false, false)];
    TextsExtend(e.left, Part(a[i - 1], false, false), a, i);
  }

  lemma LeftAdd(a: seq<string>, b: seq<string>, i: nat, j: nat)
    requires i <= |a| && 0 < j <= |b| && !(i > 0 && a[i - 1] == b[j - 1])
    requires i == 0 || Lcs(a, b, i, j - 1) >= Lcs(a, b, i - 1, j)
    requires Texts(DiffFrom(a, b, i, j - 1).left) == a[..i]
    ensures Texts(DiffFrom(a, b, i, j).left) == a[..i]
  {
    assert DiffFrom(a, b, i, j).left == DiffFrom(a, b, i, j - 1).left;
  }

  lemma LeftRemove(a: seq<string>, b: seq<string>, i: nat, j: nat)
    requires 0 < i <= |a| && j <= |b| && !(j > 0 && a[i - 1] == b[j - 1])
    requires !(j > 0 && Lcs(a, b, i, j - 1) >= Lcs(a, b, i - 1, j))
    requires Texts(DiffFrom(a, b, i - 1, j).left) == a[..i - 1]
    ensures Texts(DiffFrom(a, b, i, j).left) == a[..i]
  {
    var e := DiffFrom(a, b, i - 1, j);
    assert DiffFrom(a, b, i, j).left == e.left + [Part(a[i - 1], false, true)];
    TextsExtend(e.left, Part(a[i - 1], false, true), a, i);
  }

  lemma RightKeep(a: seq<string>, b: seq<string>, i: nat, j: nat)
    requires 0 < i <= |a| && 0 < j <= |b| && a[i - 1] == b[j - 1]
    requires Texts(DiffFrom(a, b, i - 1, j - 1).right) == b[..j - 1]
    ensures Texts(DiffFrom(a, b, i, j).right) == b[..j]
  {
    var e := DiffFrom(a, b, i - 1, j - 1);
    assert DiffFrom(a, b, i, j).right == e.right + [Part(b[j - 1], false, false)];
    TextsExtend(e.right, Part(b[j - 1], false, false), b, j);
  }

  lemma RightAdd(a: seq<string>, b: seq<string>, i: nat, j: nat)
    requires i <= |a| && 0 < j <= |b| && !(i > 0 && a[i - 1] == b[j - 1])
    requires i == 0 || Lcs(a, b, i, j - 1) >= Lcs(a, b, i - 1, j)
    requires Texts(DiffFrom(a, b, i, j - 1).right) == b[..j - 1]
    ensures Texts(DiffFrom(a, b, i, j).right) == b[..j]
  {
    var e := DiffFrom(a, b, i, j - 1);
    assert DiffFrom(a, b, i, j).right == e.right + [Part(b[j - 1], true, false)];
    TextsExtend(e.right, Part(b[j - 1], true, false), b, j);
  }

  lemma RightRemove(a: seq<string>, b: seq<string>, i: nat, j: nat)
    requires 0 < i <= |a| && j <= |b| && !(j > 0 && a[i - 1] == b[j - 1])
    requires !(j > 0 && Lcs(a, b, i, j - 1) >= Lcs(a, b, i - 1, j))
    requires Texts(DiffFrom(a, b, i - 1, j).right) == b[..j]
    ensures Texts(DiffFrom(a, b, i, j).right) == b[..j]
  {
    assert DiffFrom(a, b, i, j).right == DiffFrom(a, b, i - 1, j).right;
  }

  /** The left list marks nothing added and the right list marks nothing removed. */
  lemma {:induction false} DiffMarks(a: seq<string>, b: seq<string>, i: nat, j: nat)
    requires i <= |a| && j <= |b|
    ensures forall p :: p in DiffFrom(a, b, i, j).left ==> !p.added
    ensures forall p :: p in DiffFrom(a, b, i, j).right ==> !p.removed
    decreases i + j
  {
    if i == 0 && j == 0 {
    } else if i > 0 && j > 0 && a[i - 1] == b[j - 1] {
      DiffMarks(a, b, i - 1, j - 1);
    } else if j > 0 && (i == 0 || Lcs(a, b, i, j - 1) >= Lcs(a, b, i - 1, j)) {
      DiffMarks(a, b, i, j - 1);
    } else {
      DiffMarks(a, b, i - 1, j);
    }
  }

  /** An entry marked added or removed adds nothing to the kept words. */
  lemma SameTextsMarked(d: seq<Part>, p: Part)
    requires p.added || p.removed
    ensures SameTexts(d + [p]) == SameTexts(d)
  {
    TextsSnoc(d, p);
  }

  /** The same unmarked word at the end of both lists keeps their kept words equal. */
  lemma SameTextsKept(d1: seq<Part>, d2: seq<Part>, w: string)
    requires SameTexts(d1) == SameTexts(d2)
    ensures SameTexts(d1 + [Part(w, false, false)]) == SameTexts(d2 + [Part(w, false, false)])
  {
    TextsSnoc(d1, Part(w, false, false));
    TextsSnoc(d2, Part(w, false, false));
  }

  /** Both lists keep the same words. */
  lemma {:induction false} DiffSameWords(a: seq<string>, b: seq<string>, i: nat, j: nat)
    requires i <= |a| && j <= |b|
    ensures SameTexts(DiffFrom(a, b, i, j).left) == SameTexts(DiffFrom(a, b, i, j).right)
    decreases i + j
  {
    if i == 0 && j == 0 {
    } else if i > 0 && j > 0 && a[i - 1] == b[j - 1] {
      DiffSameWords(a, b, i - 1, j - 1);
      SameWordsKeep(a, b, i, j);
    } else if j > 0 && (i == 0 || Lcs(a, b, i, j - 1) >= Lcs(a, b, i - 1, j)) {
      DiffSameWords(a, b, i, j - 1);
      SameWordsAdd(a, b, i, j);
    } else {
      DiffSameWords(a, b, i - 1, j);
      SameWordsRemove(a, b, i, j);
    }
  }

  /** The steps of `DiffSameWords`, one per branch of the walk. */
  lemma SameWordsKeep(a: seq<string>, b: seq<string>, i: nat, j: nat)
    requires 0 < i <= |a| && 0 < j <= |b| && a[i - 1] == b[j - 1]
    requires SameTexts(DiffFrom(a, b, i - 1, j - 1).left) == SameTexts(DiffFrom(a, b, i - 1, j - 1).right)
    ensures SameTexts(DiffFrom(a, b, i, j).left) == SameTexts(DiffFrom(a, b, i, j).right)
  {
    var e := DiffFrom(a, b, i - 1, j - 1);
    assert DiffFrom(a, b, i, j).left == e.left + [Part(a[i - 1], false, false)];
    assert DiffFrom(a, b, i, j).right == e.right + [Part(a[i - 1], false, false)];
    SameTextsKept(e.left, e.right, a[i - 1]);
  }

  lemma SameWordsAdd(a: seq<string>, b: seq<string>, i: nat, j: nat)
    requires i <= |a| && 0 < j <= |b| && !(i > 0 && a[i - 1] == b[j - 1])
    requires i == 0 || Lcs(a, b, i, j - 1) >= Lcs(a, b, i - 1, j)
    requires SameTexts(DiffFrom(a, b, i, j - 1).left) == SameTexts(DiffFrom(a, b, i, j - 1).right)
    ensures SameTexts(DiffFrom(a, b, i, j).left) == SameTexts(DiffFrom(a, b, i, j).right)
  {
    var e := DiffFrom(a, b, i, j - 1);
    assert DiffFrom(a, b, i, j).left == e.left;
    assert DiffFrom(a, b, i, j).right == e.right + [Part(b[j - 1], true, false)];
    SameTextsMarked(e.right, Part(b[j - 1], true, false));
  }

  lemma SameWordsRemove(a: seq<string>, b: seq<string>, i: nat, j: nat)
    requires 0 < i <= |a| && j <= |b| && !(j > 0 && a[i - 1] == b[j - 1])
    requires !(j > 0 && Lcs(a, b, i, j - 1) >= Lcs(a, b, i - 1, j))
    requires SameTexts(DiffFrom(a, b, i - 1, j).left) == SameTexts(DiffFrom(a, b, i - 1, j).right)
    ensures SameTexts(DiffFrom(a, b, i, j).left) == SameTexts(DiffFrom(a, b, i, j).right)
  {
    var e := DiffFrom(a, b, i - 1, j);
    assert DiffFrom(a, b, i, j).left == e.left + [Part(a[i - 1], false, true)];
    assert DiffFrom(a, b, i, j).right == e.right;
    SameTextsMarked(e.left, Part(a[i - 1], false, true));
  }

  /** The left list keeps as many words as the table entry says. */
  lemma {:induction false} DiffSameCount(a: seq<string>, b: seq<string>, i: nat, j: nat)
    requires i <= |a| && j <= |b|
    ensures |SameTexts(DiffFrom(a, b, i, j).left)| == Lcs(a, b, i, j)
    decreases i + j
  {
    if i == 0 && j == 0 {
    } else if i > 0 && j > 0 && a[i - 1] == b[j - 1] {
      var e := DiffFrom(a, b, i - 1, j - 1);
      assert DiffFrom(a, b, i, j).left == e.left + [Part(a[i - 1], false, false)];
      DiffSameCount(a, b, i - 1, j - 1);
      TextsSnoc(e.left, Part(a[i - 1], false, false));
    } else if j > 0 && (i == 0 || Lcs(a, b, i, j - 1) >= Lcs(a, b, i - 1, j)) {
      assert DiffFrom(a, b, i, j).left == DiffFrom(a, b, i, j - 1).left;
      assert Lcs(a, b, i, j) == Lcs(a, b, i, j - 1);
      DiffSameCount(a, b, i, j - 1);
    } else {
      var e := DiffFrom(a, b, i - 1, j);
      assert DiffFrom(a, b, i, j).left == e.left + [Part(a[i - 1], false, true)];
      assert Lcs(a, b, i, j) == Lcs(a, b, i - 1, j);
      DiffSameCount(a, b, i - 1, j);
      TextsSnoc(e.left, Part(a[i - 1], false, true));
    }
  }

  /** The unmarked entries of any list form a subsequence of its texts. */
  lemma {:induction false} SameSubseq(d: seq<Part>)
    ensures Subseq(SameTexts(d), Texts(d))
    decreases |d|
  {
    if d != [] {
      var n := |d| - 1;
      var p := d[n];
      assert d == d[..n] + [p];
      SameSubseq(d[..n]);
      TextsSnoc(d[..n], p);
      if !p.added && !p.removed {
        SubseqSnoc(SameTexts(d[..n]), Texts(d[..n]), p.text);
      } else {
        assert SameTexts(d) == SameTexts(d[..n]);
        SubseqExtend(SameTexts(d[..n]), Texts(d[..n]), p.text);
      }
    }
  }

  /**
   * Read in order, the left list spells the first text's words and the right
   * list the second's; the left list holds only kept and removed entries, the
   * right list only kept and added ones.
   */
  lemma DiffSpellsBothTexts(a: seq<string>, b: seq<string>)
    ensures var d := DiffOf(a, b);
            && Texts(d.left) == a && Texts(d.right) == b
            && (forall p :: p in d.left ==> !p.added)
            && (forall p :: p in d.right ==> !p.removed)
  {
    DiffTextsLeft(a, b, |a|, |b|);
    DiffTextsRight(a, b, |a|, |b|);
    DiffMarks(a, b, |a|, |b|);
    assert a[..|a|] == a && b[..|b|] == b;
  }

  /**
   * The kept words of `findTextDifferences` are a longest common subsequence
   * of the two word lists: they occur in order in both, both lists keep the
   * same ones, and no common subsequence is longer.
   */
  lemma KeptWordsAreLongestCommon(a: seq<string>, b: seq<string>)
    ensures var d := DiffOf(a, b);
            var kept := SameTexts(d.left);
            && kept == SameTexts(d.right)
            && Subseq(kept, a) && Subseq(kept, b)
            && |kept| == Lcs(a, b, |a|, |b|)
            && forall c :: Subseq(c, a) && Subseq(c, b) ==> |c| <= |kept|
  {
    var d := DiffOf(a, b);
    DiffTextsLeft(a, b, |a|, |b|);
    DiffTextsRight(a, b, |a|, |b|);
    DiffSameWords(a, b, |a|, |b|);
    DiffSameCount(a, b, |a|, |b|);
    SameSubseq(d.left);
    SameSubseq(d.right);
    assert a[..|a|] == a && b[..|b|] == b;
    forall c | Subseq(c, a) && Subseq(c, b) ensures |c| <= Lcs(a, b, |a|, |b|) {
      LcsUpperBound(a, b, |a|, |b|, c);
    }
  }

  // ---------------------------------------------------------------------------
  // The loops of findTextDifferences

  /** The table filled by the two nested loops. */
  method BuildMatrix(words1: seq<string>, words2: seq<string>) returns (matrix: array2<nat>)
    ensures matrix.Length0 == |words1| + 1 && matrix.Length1 == |words2| + 1
    ensures forall i, j :: 0 <= i <= |words1| && 0 <= j <= |words2| ==> matrix[i, j] == Lcs(words1, words2, i, j)
  {
    matrix := new nat[|words1| + 1, |words2| + 1]((i, j) => 0);
    for i := 1 to |words1| + 1
      invariant forall r, c :: 0 <= r < i && 0 <= c <= |words2| ==> matrix[r, c] == Lcs(words1, words2, r, c)
      invariant forall r, c :: i <= r <= |words1| && 0 <= c <= |words2| ==> matrix[r, c] == 0
    {
      FillRow(words1, words2, matrix, i);
    }
  }

  /** One pass of the inner loop: row `i` from the row above it. */
  method FillRow(words1: seq<string>, words2: seq<string>, matrix: array2<nat>, i: nat)
    requires matrix.Length0 == |words1| + 1 && matrix.Length1 == |words2| + 1
    requires 1 <= i <= |words1|
    requires forall r, c :: 0 <= r < i && 0 <= c <= |words2| ==> matrix[r, c] == Lcs(words1, words2, r, c)
    requires forall r, c :: i <= r <= |words1| && 0 <= c <= |words2| ==> matrix[r, c] == 0
    modifies matrix
    ensures forall r, c :: 0 <= r <= i && 0 <= c <= |words2| ==> matrix[r, c] == Lcs(words1, words2, r, c)
    ensures forall r, c :: i < r <= |words1| && 0 <= c <= |words2| ==> matrix[r, c] == 0
  {
    for j := 1 to |words2| + 1
      invariant forall r, c :: 0 <= r <= |words1| && r != i && 0 <= c <= |words2| ==> matrix[r, c] == old(matrix[r, c])
      invariant forall c {:trigger matrix[i, c]} :: 0 <= c < j ==> matrix[i, c] == Lcs(words1, words2, i, c)
    {
      var up, left, diagonal := matrix[i - 1, j], matrix[i, j - 1], matrix[i - 1, j - 1];
      assert up == Lcs(words1, words2, i - 1, j) && left == Lcs(words1, words2, i, j - 1);
      assert diagonal == Lcs(words1, words2, i - 1, j - 1);
      var value: nat;
      if words1[i - 1] == words2[j - 1] {
        value := diagonal + 1;
      } else if up >= left {
        value := up;
      } else {
        value := left;
      }
      assert value == Lcs(words1, words2, i, j);
      matrix[i, j] := value;
    }
  }

  /**
   * The walk stands at `(i, j)` holding `diff1` and `diff2`: what it will
   * still prepend, followed by what it holds, is the whole diff.
   */
  predicate Walked(a: seq<string>, b: seq<string>, i: nat, j: nat, diff1: seq<Part>, diff2: seq<Part>)
    requires i <= |a| && j <= |b|
  {
    DiffOf(a, b) == Diff(DiffFrom(a, b, i, j).left + diff1, DiffFrom(a, b, i, j).right + diff2)
  }

  /** A step over a word both lists share keeps it on both sides. */
  lemma WalkKeep(a: seq<string>, b: seq<string>, i: nat, j: nat, diff1: seq<Part>, diff2: seq<Part>)
    requires 0 < i <= |a| && 0 < j <= |b| && a[i - 1] == b[j - 1]
    requires Walked(a, b, i, j, diff1, diff2)
    ensures Walked(a, b, i - 1, j - 1, [Part(a[i - 1], false, false)] + diff1, [Part(b[j - 1], false, false)] + diff2)
  {
    var e := DiffFrom(a, b, i - 1, j - 1);
    assert DiffFrom(a, b, i, j) == Diff(e.left + [Part(a[i - 1], false, false)], e.right + [Part(b[j - 1], false, false)]);
    Associative(e.left, [Part(a[i - 1], false, false)], diff1);
    Associative(e.right, [Part(b[j - 1], false, false)], diff2);
  }

  /** A step to the left marks the word of the right text as added. */
  lemma WalkAdd(a: seq<string>, b: seq<string>, i: nat, j: nat, diff1: seq<Part>, diff2: seq<Part>)
    requires i <= |a| && 0 < j <= |b| && !(i > 0 && a[i - 1] == b[j - 1])
    requires i == 0 || Lcs(a, b, i, j - 1) >= Lcs(a, b, i - 1, j)
    requires Walked(a, b, i, j, diff1, diff2)
    ensures Walked(a, b, i, j - 1, diff1, [Part(b[j - 1], true, false)] + diff2)
  {
    var e := DiffFrom(a, b, i, j - 1);
    assert DiffFrom(a, b, i, j) == Diff(e.left, e.right + [Part(b[j - 1], true, false)]);
    Associative(e.right, [Part(b[j - 1], true, false)], diff2);
  }

  /** A step up marks the word of the left text as removed. */
  lemma WalkRemove(a: seq<string>, b: seq<string>, i: nat, j: nat, diff1: seq<Part>, diff2: seq<Part>)
    requires 0 < i <= |a| && j <= |b| && !(j > 0 && a[i - 1] == b[j - 1])
    requires j == 0 || Lcs(a, b, i, j - 1) < Lcs(a, b, i - 1, j)
    requires Walked(a, b, i, j, diff1, diff2)
    ensures Walked(a, b, i - 1, j, [Part(a[i - 1], false, true)] + diff1, diff2)
  {
    var e := DiffFrom(a, b, i - 1, j);
    assert DiffFrom(a, b, i, j) == Diff(e.left + [Part(a[i - 1], false, true)], e.right);
    Associative(e.left, [Part(a[i - 1], false, true)], diff1);
  }

  /** The `while` loop that walks the table back from its far corner. */
  method Backtrack(words1: seq<string>, words2: seq<string>, matrix: array2<nat>)
      returns (diff1: seq<Part>, diff2: seq<Part>)
    requires matrix.Length0 == |words1| + 1 && matrix.Length1 == |words2| + 1
    requires forall i, j :: 0 <= i <= |words1| && 0 <= j <= |words2| ==> matrix[i, j] == Lcs(words1, words2, i, j)
    ensures Diff(diff1, diff2) == DiffOf(words1, words2)
  {
    diff1, diff2 := [], [];
    var i: nat, j: nat := |words1|, |words2|;
    assert DiffOf(words1, words2).left + [] == DiffOf(words1, words2).left;
    assert DiffOf(words1, words2).right + [] == DiffOf(words1, words2).right;
    while i > 0 || j > 0
      invariant i <= |words1| && j <= |words2|
      invariant Walked(words1, words2, i, j, diff1, diff2)
      decreases i + j
    {
      if i > 0 && j > 0 && words1[i - 1] == words2[j - 1] {
        WalkKeep(words1, words2, i, j, diff1, diff2);
        diff1 := [Part(words1[i - 1], false, false)] + diff1;
        diff2 := [Part(words2[j - 1], false, false)] + diff2;
        i, j := i - 1, j - 1;
      } else if j > 0 && (i == 0 || matrix[i, j - 1] >= matrix[i - 1, j]) {
        WalkAdd(words1, words2, i, j, diff1, diff2);
        diff2 := [Part(words2[j - 1], true, false)] + diff2;
        j := j - 1;
      } else if i > 0 && (j == 0 || matrix[i, j - 1] < matrix[i - 1, j]) {
        WalkRemove(words1, words2, i, j, diff1, diff2);
        diff1 := [Part(words1[i - 1], false, true)] + diff1;
        i := i - 1;
      } else {
        assert false;
      }
    }
    assert DiffFrom(words1, words2, 0, 0) == Diff([], []);
  }

  // ---------------------------------------------------------------------------
  // The HTML

  /** The class of an entry's span: its mark on its own side, or `diff-same`. */
  function SpanClass(p: Part, leftSide: bool): string {
    if leftSide && p.removed then "diff-removed"
    else if !leftSide && p.added then "diff-added"
    else "diff-same"
  }

  /*
   * Each piece of markup is written as its `<` followed by the rest, so that
   * the tag count at the end of this module can see the one `<` of each.
   */

  /** One entry: its escaped text in a span, then a space. */
  function Span(p: Part, leftSide: bool): string {
    "<" + "span class=\"" + SpanClass(p, leftSide) + "\">" + EscapeHtml(p.text) + "<" + "/span> "
  }

  /** The spans of one side, in order. */
  function SideHtml(d: seq<Part>, leftSide: bool): string {
    if d == [] then [] else SideHtml(d[..|d| - 1], leftSide) + Span(d[|d| - 1], leftSide)
  }

  const ContainerOpen: string := "<" + "div class=\"diff-container\">"
  const LeftOpen: string := "<" + "div class=\"diff diff-left\">"
  const RightOpen: string := "<" + "div class=\"diff diff-right\">"
  const DivClose: string := "<" + "/div>"

  /** The page: the container, then the left side's spans, then the right side's. */
  function DiffHtml(d: Diff): string {
    ContainerOpen + LeftOpen + SideHtml(d.left, true) + DivClose + RightOpen + SideHtml(d.right, false) + DivClose + DivClose
  }

  /** The two `forEach` loops that append the spans. */
  method AppendSpans(html: string, d: seq<Part>, leftSide: bool) returns (out: string)
    ensures out == html + SideHtml(d, leftSide)
  {
    out := html;
    for k := 0 to |d|
      invariant out == html + SideHtml(d[..k], leftSide)
    {
      AppendStep(html, out, d, k, leftSide);
      out := out + Span(d[k], leftSide);
    }
    assert d[..|d|] == d;
  }

  lemma AppendStep(html: string, out: string, d: seq<Part>, k: nat, leftSide: bool)
    requires k < |d| && out == html + SideHtml(d[..k], leftSide)
    ensures out + Span(d[k], leftSide) == html + SideHtml(d[..k + 1], leftSide)
  {
    SideHtmlSnoc(d, k, leftSide);
    Associative(html, SideHtml(d[..k], leftSide), Span(d[k], leftSide));
  }

  lemma SideHtmlSnoc(d: seq<Part>, k: nat, leftSide: bool)
    requires k < |d|
    ensures SideHtml(d[..k + 1], leftSide) == SideHtml(d[..k], leftSide) + Span(d[k], leftSide)
  {
    assert d[..k + 1][..k] == d[..k];
  }

  lemma Associative<T>(x: seq<T>, y: seq<T>, z: seq<T>)
    ensures x + (y + z) == (x + y) + z
  {
  }

  /** `findTextDifferences(text1, text2)`. */
  method FindTextDifferences(text1: string, text2: string) returns (html: string)
    ensures html == DiffHtml(DiffOf(SplitWs(text1), SplitWs(text2)))
  {
    var words1 := SplitWs(text1);
    var words2 := SplitWs(text2);
    var matrix := BuildMatrix(words1, words2);
    var diff1, diff2 := Backtrack(words1, words2, matrix);
    html := ContainerOpen;
    html := html + LeftOpen;
    html := AppendSpans(html, diff1, true);
    html := html + DivClose;
    html := html + RightOpen;
    html := AppendSpans(html, diff2, false);
    html := html + DivClose;
    html := html + DivClose;
  }

  /** How many times `c` occurs in `s`. */
  function Occurrences(s: string, c: char): nat
    decreases |s|
  {
    if s == [] then 0 else Occurrences(s[..|s| - 1], c) + (if s[|s| - 1] == c then 1 else 0)
  }

  /** A piece of markup that starts with its only `<`. */
  lemma OneTag(rest: string)
    requires NoLt(rest)
    ensures Occurrences("<" + rest, '<') == 1
  {
    NoLtCount(rest);
    OccurrencesAppend("<", rest);
  }

  lemma ContainerTag()
    ensures Occurrences(ContainerOpen, '<') == 1
  {
    OneTag("div class=\"diff-container\">");
  }

  lemma LeftTag()
    ensures Occurrences(LeftOpen, '<') == 1
  {
    OneTag("div class=\"diff diff-left\">");
  }

  lemma RightTag()
    ensures Occurrences(RightOpen, '<') == 1
  {
    OneTag("div class=\"diff diff-right\">");
  }

  lemma CloseTag()
    ensures Occurrences(DivClose, '<') == 1
  {
    OneTag("/div>");
  }

  /** No character of `s` is a `<`. */
  predicate NoLt(s: string) {
    forall k :: 0 <= k < |s| ==> s[k] != '<'
  }

  lemma {:induction false} NoLtCount(s: string)
    requires NoLt(s)
    ensures Occurrences(s, '<') == 0
    decreases |s|
  {
    if s != [] {
      NoLtCount(s[..|s| - 1]);
    }
  }

  /** The fixed text of a span holds no `<` besides the two that open its tags. */
  lemma SpanFixedText()
    ensures Occurrences("span class=\"", '<') == 0
    ensures Occurrences("\">", '<') == 0
    ensures Occurrences("/span> ", '<') == 0
  {
    NoLtCount("span class=\"");
    NoLtCount("\">");
    NoLtCount("/span> ");
  }

  lemma SpanClassText(p: Part, leftSide: bool)
    ensures Occurrences(SpanClass(p, leftSide), '<') == 0
  {
    NoLtCount("diff-removed");
    NoLtCount("diff-added");
    NoLtCount("diff-same");
  }

  /** Every span opens and closes one tag: the escaped word adds no `<`. */
  lemma SpanTags(p: Part, leftSide: bool)
    ensures Occurrences(Span(p, leftSide), '<') == 2
  {
    EscapeNoMarkup(p.text);
    NoLtCount(EscapeHtml(p.text));
    SpanFixedText();
    SpanClassText(p, leftSide);
    SpanCount("span class=\"", SpanClass(p, leftSide), "\">", EscapeHtml(p.text), "/span> ");
  }

  /** A span's count is its two tags plus those of its five other pieces. */
  lemma SpanCount(opening: string, kind: string, middle: string, text: string, closing: string)
    ensures Occurrences("<" + opening + kind + middle + text + "<" + closing, '<')
            == 2 + Occurrences(opening, '<') + Occurrences(kind, '<') + Occurrences(middle, '<')
               + Occurrences(text, '<') + Occurrences(closing, '<')
  {
    var p1 := "<" + opening;
    OccurrencesAppend("<", opening);
    OccurrencesAppend(p1, kind);
    OccurrencesAppend(p1 + kind, middle);
    OccurrencesAppend(p1 + kind + middle, text);
    OccurrencesAppend(p1 + kind + middle + text, "<");
    OccurrencesAppend(p1 + kind + middle + text + "<", closing);
  }

  lemma {:induction false} SideTags(d: seq<Part>, leftSide: bool)
    ensures Occurrences(SideHtml(d, leftSide), '<') == 2 * |d|
    decreases |d|
  {
    if d != [] {
      var n := |d| - 1;
      SideTags(d[..n], leftSide);
      SpanTags(d[n], leftSide);
      OccurrencesAppend(SideHtml(d[..n], leftSide), Span(d[n], leftSide));
    }
  }

  /**
   * No word can inject markup: the only `<` characters of the page are those
   * of the three `div` elements and of one `span` per entry.
   */
  lemma DiffHtmlTags(d: Diff)
    ensures Occurrences(DiffHtml(d), '<') == 6 + 2 * (|d.left| + |d.right|)
  {
    SideTags(d.left, true);
    SideTags(d.right, false);
    ContainerTag();
    LeftTag();
    RightTag();
    CloseTag();
    TagsCount(ContainerOpen, LeftOpen, SideHtml(d.left, true), DivClose, RightOpen, SideHtml(d.right, false));
  }

  /**
   * A page of three single-tag openings, a closing tag used three times and
   * two sides has its six tags plus those of the sides.
   */
  lemma TagsCount(container: string, left: string, sl: string, close: string, right: string, sr: string)
    requires Occurrences(container, '<') == 1 && Occurrences(left, '<') == 1
    requires Occurrences(right, '<') == 1 && Occurrences(close, '<') == 1
    ensures Occurrences(container + left + sl + close + right + sr + close + close, '<')
            == 6 + Occurrences(sl, '<') + Occurrences(sr, '<')
  {
    var p1 := container + left;
    OccurrencesAppend(container, left);
    OccurrencesAppend(p1, sl);
    OccurrencesAppend(p1 + sl, close);
    OccurrencesAppend(p1 + sl + close, right);
    OccurrencesAppend(p1 + sl + close + right, sr);
    OccurrencesAppend(p1 + sl + close + right + sr, close);
    OccurrencesAppend(p1 + sl + close + right + sr + close, close);
  }

  lemma {:induction false} OccurrencesAppend(x: string, y: string)
    ensures Occurrences(x + y, '<') == Occurrences(x, '<') + Occurrences(y, '<')
    decreases |y|
  {
    if y == [] {
      assert x + y == x;
    } else {
      var n := |y| - 1;
      assert (x + y)[..|x + y| - 1] == x + y[..n];
      assert (x + y)[|x + y| - 1] == y[n];
      OccurrencesAppend(x, y[..n]);
    }
  }
}
