/** Option, the stock wrapper for an absent value (a missing key, an empty input). */
module Wrappers {
  datatype Option<+T> = None | Some(value: T)
}

/**
 * The string primitives the Python side relies on: the whitespace class of
 * `str.isspace` and `re`'s `\s`, `str.strip`, `re.sub(r'\s+', ' ', ...)`,
 * `str.split()`, `' '.join(...)`, ASCII `str.lower`, substring `in`, and
 * `str(n)` for a natural number.
 */
module Text {
  import opened Wrappers
  import opened Seqs

  /** A character Python's `str.isspace()` (and so `\s` in a str regex) accepts. */
  predicate IsSpace(c: char) {
    || c == ' '
    || ('\t' <= c <= '\r')
    || ('\U{1C}' <= c <= '\U{1F}')
    || c == '\U{85}' || c == '\U{A0}' || c == '\U{1680}'
    || ('\U{2000}' <= c <= '\U{200A}')
    || c == '\U{2028}' || c == '\U{2029}' || c == '\U{202F}' || c == '\U{205F}' || c == '\U{3000}'
  }

  predicate NoSpace(s: string) {
    forall i :: 0 <= i < |s| ==> !IsSpace(s[i])
  }

  predicate AllSpace(s: string) {
    forall i :: 0 <= i < |s| ==> IsSpace(s[i])
  }

  /** No whitespace at either end: what `str.strip()` leaves. */
  predicate Trimmed(s: string) {
    s == [] || (!IsSpace(s[0]) && !IsSpace(s[|s| - 1]))
  }

  /** `str.lstrip()`: drops the leading whitespace and nothing else. */
  function TrimLeft(s: string): (r: string)
    ensures |r| <= |s| && r == s[|s| - |r|..]
    ensures AllSpace(s[..|s| - |r|])
    ensures r == [] || !IsSpace(r[0])
  {
    if s != [] && IsSpace(s[0]) then
      var r := TrimLeft(s[1..]);
      TrimLeftStep(s, r);
      r
    else s
  }

  lemma AllSpaceJoin(a: string, b: string)
    requires AllSpace(a) && AllSpace(b)
    ensures AllSpace(a + b)
  {
    forall i | 0 <= i < |a + b|
      ensures IsSpace((a + b)[i])
    {
      if i < |a| {
        assert (a + b)[i] == a[i];
      } else {
        assert (a + b)[i] == b[i - |a|];
      }
    }
  }

  /** Dropping one more leading space keeps the left-trim properties. */
  lemma TrimLeftStep(s: string, r: string)
    requires s != [] && IsSpace(s[0])
    requires |r| <= |s[1..]| && r == s[1..][|s[1..]| - |r|..] && AllSpace(s[1..][..|s[1..]| - |r|])
    ensures |r| <= |s| && r == s[|s| - |r|..]
    ensures AllSpace(s[..|s| - |r|])
  {
    assert s[..|s| - |r|] == [s[0]] + s[1..][..|s| - 1 - |r|];
    AllSpaceJoin([s[0]], s[1..][..|s| - 1 - |r|]);
  }

  /** Dropping one more trailing space keeps the right-trim properties. */
  lemma TrimRightStep(s: string, r: string)
    requires s != [] && IsSpace(s[|s| - 1])
    requires |r| <= |s[..|s| - 1]| && r == s[..|s| - 1][..|r|] && AllSpace(s[..|s| - 1][|r|..])
    ensures |r| <= |s| && r == s[..|r|]
    ensures AllSpace(s[|r|..])
  {
    assert s[|r|..] == s[..|s| - 1][|r|..] + [s[|s| - 1]];
    AllSpaceJoin(s[..|s| - 1][|r|..], [s[|s| - 1]]);
  }

  /** `str.rstrip()`: drops the trailing whitespace and nothing else. */
  function TrimRight(s: string): (r: string)
    ensures |r| <= |s| && r == s[..|r|]
    ensures AllSpace(s[|r|..])
    ensures r == [] || !IsSpace(r[|r| - 1])
  {
    if s != [] && IsSpace(s[|s| - 1]) then
      var r := TrimRight(s[..|s| - 1]);
      TrimRightStep(s, r);
      r
    else s
  }

  /** How many whitespace characters `str.lstrip()` removes from the front of `s`. */
  function LeadingSpaces(s: string): (k: nat)
    ensures k <= |s| && AllSpace(s[..k]) && TrimLeft(s) == s[k..]
  {
    |s| - |TrimLeft(s)|
  }

  /** `str.strip()`: the slice of `s` left after removing whitespace at both ends. */
  function Strip(s: string): (r: string)
    ensures Trimmed(r)
    ensures LeadingSpaces(s) + |r| <= |s| && r == s[LeadingSpaces(s)..LeadingSpaces(s) + |r|]
    ensures AllSpace(s[LeadingSpaces(s) + |r|..])
  {
    var a := LeadingSpaces(s);
    var r := TrimRight(s[a..]);
    StripSlice(s, a, r);
    r
  }

  /** The right-trimmed rest of `s` after `a` is the slice `s[a..a + |r|]`, followed by whitespace only. */
  lemma StripSlice(s: string, a: nat, r: string)
    requires a <= |s| && (a == |s| || !IsSpace(s[a])) && r == TrimRight(s[a..])
    ensures Trimmed(r)
    ensures a + |r| <= |s| && r == s[a..a + |r|]
    ensures AllSpace(s[a + |r|..])
  {
    var l := s[a..];
    assert r == [] || r[0] == l[0];
    assert s[a..a + |r|] == r;
    assert s[a + |r|..] == l[|r|..];
  }

  /** A trimmed string is left alone by `strip()`. */
  lemma StripTrimmed(s: string)
    requires Trimmed(s)
    ensures Strip(s) == s
  {
  }

  /** `re.sub(r'\s+', ' ', s)`: every maximal whitespace run becomes one space. */
  function CollapseWhitespace(s: string): (r: string)
    ensures forall i :: 0 <= i < |r| && IsSpace(r[i]) ==> r[i] == ' '
    ensures s != [] && !IsSpace(s[0]) ==> r != [] && r[0] == s[0]
    ensures s != [] && IsSpace(s[0]) ==> r != [] && r[0] == ' '
    ensures forall i, j :: 0 <= i && j == i + 1 && j < |r| ==> !(r[i] == ' ' && r[j] == ' ')
    decreases |s|
  {
    if s == [] then []
    else if IsSpace(s[0]) then
      var rest := TrimLeft(s);
      assert |rest| < |s|;
      var tail := CollapseWhitespace(rest);
      assert tail != [] ==> tail[0] == rest[0] && !IsSpace(tail[0]);
      " " + tail
    else [s[0]] + CollapseWhitespace(s[1..])
  }

  /** The non-whitespace characters of `s`, in order. */
  function Visible(s: string): string {
    if s == [] then [] else (if IsSpace(s[0]) then [] else [s[0]]) + Visible(s[1..])
  }

  lemma {:induction false} VisibleOfSpaces(s: string)
    requires AllSpace(s)
    ensures Visible(s) == []
  {
    if s != [] { VisibleOfSpaces(s[1..]); }
  }

  lemma {:induction false} VisibleAppend(a: string, b: string)
    ensures Visible(a + b) == Visible(a) + Visible(b)
  {
    if a != [] {
      assert (a + b)[0] == a[0];
      assert (a + b)[1..] == a[1..] + b;
      VisibleAppend(a[1..], b);
    } else {
      assert a + b == b;
    }
  }

  /** Collapsing whitespace keeps every visible character, in order. */
  lemma {:induction false} CollapseKeepsVisible(s: string)
    ensures Visible(CollapseWhitespace(s)) == Visible(s)
    decreases |s|
  {
    if s == [] {
    } else if IsSpace(s[0]) {
      var rest := TrimLeft(s);
      var k := |s| - |rest|;
      assert s == s[..k] + rest;
      VisibleAppend(s[..k], rest);
      VisibleOfSpaces(s[..k]);
      CollapseKeepsVisible(rest);
      VisibleAppend(" ", CollapseWhitespace(rest));
    } else {
      CollapseKeepsVisible(s[1..]);
      VisibleAppend([s[0]], CollapseWhitespace(s[1..]));
    }
  }

  /** ASCII `str.lower()` on one character. */
  function LowerChar(c: char): char {
    if 'A' <= c <= 'Z' then (c as int - 'A' as int + 'a' as int) as char else c
  }

  /** `str.lower()`, restricted to the ASCII letters. */
  function Lower(s: string): (r: string)
    ensures |r| == |s|
    ensures forall i :: 0 <= i < |s| ==> r[i] == LowerChar(s[i])
  {
    seq(|s|, i requires 0 <= i < |s| => LowerChar(s[i]))
  }

  /** The first word of `s` (which starts with no whitespace): its longest whitespace-free prefix. */
  function TakeWord(s: string): (w: string)
    ensures |w| <= |s| && w == s[..|w|] && NoSpace(w)
    ensures |w| < |s| ==> IsSpace(s[|w|])
    ensures s != [] && !IsSpace(s[0]) ==> w != []
  {
    if s == [] || IsSpace(s[0]) then [] else [s[0]] + TakeWord(s[1..])
  }

  /** `str.split()` with no separator: the maximal whitespace-free runs of `s`. */
  function SplitWords(s: string): (ws: seq<string>)
    ensures AreWords(ws)
    decreases |s|
  {
    var t := TrimLeft(s);
    if t == [] then []
    else
      var w := TakeWord(t);
      var rest := SplitWords(t[|w|..]);
      WordsCons(w, rest);
      [w] + rest
  }

  /** Every element is a non-empty run of non-whitespace characters. */
  predicate AreWords(ws: seq<string>) {
    forall i :: 0 <= i < |ws| ==> ws[i] != [] && NoSpace(ws[i])
  }

  lemma WordsCons(w: string, rest: seq<string>)
    requires w != [] && NoSpace(w) && AreWords(rest)
    ensures AreWords([w] + rest)
  {
    forall i | 0 < i <= |rest|
      ensures ([w] + rest)[i] == rest[i - 1]
    {
    }
  }

  /** `' '.join(ws)`. */
  function Join(ws: seq<string>): string {
    if ws == [] then []
    else if |ws| == 1 then ws[0]
    else ws[0] + " " + Join(ws[1..])
  }

  lemma {:induction false} JoinLeadingWord(ws: seq<string>)
    requires |ws| > 0 && ws[0] != [] && !IsSpace(ws[0][0])
    ensures Join(ws) != [] && Join(ws)[0] == ws[0][0]
  {
  }

  /** Splitting a space-joined list of whitespace-free, non-empty words gives the words back. */
  lemma {:induction false} SplitJoin(ws: seq<string>)
    requires forall i :: 0 <= i < |ws| ==> ws[i] != [] && NoSpace(ws[i])
    ensures SplitWords(Join(ws)) == ws
  {
    if ws == [] {
    } else if |ws| == 1 {
      SplitOneWord(ws[0]);
    } else {
      var tail := ws[1..];
      assert forall i :: 0 <= i < |tail| ==> tail[i] == ws[i + 1];
      JoinLeadingWord(tail);
      SplitJoin(tail);
      SplitWordThenRest(ws[0], Join(tail));
      JoinCons(ws, Join(ws));
      HeadTail(ws);
    }
  }

  lemma JoinCons(ws: seq<string>, j: string)
    requires |ws| >= 2 && j == Join(ws)
    ensures j == ws[0] + " " + Join(ws[1..])
  {
  }

  lemma SplitOneWord(w: string)
    requires w != [] && NoSpace(w)
    ensures SplitWords(w) == [w]
  {
    assert TrimLeft(w) == w;
    TakeWordWhole(w);
    assert w[|w|..] == [];
  }

  lemma SplitWordThenRest(w: string, rest: string)
    requires w != [] && NoSpace(w)
    requires rest == [] || !IsSpace(rest[0])
    ensures SplitWords(w + " " + rest) == [w] + SplitWords(rest)
  {
    var s := w + " " + rest;
    WordThenSpace(w, rest, s);
    SplitAtWord(s);
    SplitAfterSpace(rest);
  }

  lemma WordThenSpace(w: string, rest: string, s: string)
    requires w != [] && NoSpace(w)
    requires s == w + " " + rest
    ensures s != [] && !IsSpace(s[0]) && TakeWord(s) == w && s[|w|..] == " " + rest
  {
    assert s[0] == w[0];
    TakeWordBeforeSpace(w, rest);
  }

  /** Splitting text that starts with a word: that word, then the split of what follows it. */
  lemma SplitAtWord(s: string)
    requires s != [] && !IsSpace(s[0])
    ensures SplitWords(s) == [TakeWord(s)] + SplitWords(s[|TakeWord(s)|..])
  {
    assert TrimLeft(s) == s;
  }

  lemma TakeWordWhole(w: string)
    requires NoSpace(w)
    ensures TakeWord(w) == w
  {
    if w != [] { TakeWordWhole(w[1..]); }
  }

  lemma TakeWordBeforeSpace(w: string, rest: string)
    requires NoSpace(w)
    ensures TakeWord(w + " " + rest) == w
  {
    if w == [] {
    } else {
      assert (w + " " + rest)[1..] == w[1..] + " " + rest;
      TakeWordBeforeSpace(w[1..], rest);
    }
  }

  lemma SplitAfterSpace(rest: string)
    requires rest == [] || !IsSpace(rest[0])
    ensures SplitWords(" " + rest) == SplitWords(rest)
  {
    assert (" " + rest)[1..] == rest;
  }

  // ---------------------------------------------------------------------------
  // How the collapse, the split and the join agree

  /** Whitespace-free text passes through the collapse untouched. */
  lemma {:induction false} CollapseWordPrefix(w: string, t: string)
    requires NoSpace(w)
    ensures CollapseWhitespace(w + t) == w + CollapseWhitespace(t)
    decreases |w|
  {
    if w == [] {
      assert w + t == t;
    } else {
      var x := w[1..] + t;
      assert CollapseWhitespace(w + t) == [w[0]] + CollapseWhitespace(x) by {
        assert w + t == [w[0]] + x;
        CollapseVisibleCons(w[0], x);
      }
      assert CollapseWhitespace(x) == w[1..] + CollapseWhitespace(t) by {
        CollapseWordPrefix(w[1..], t);
      }
      assert [w[0]] + (w[1..] + CollapseWhitespace(t)) == w + CollapseWhitespace(t) by {
        assert w == [w[0]] + w[1..];
      }
    }
  }

  lemma CollapseVisibleCons(c: char, x: string)
    requires !IsSpace(c)
    ensures CollapseWhitespace([c] + x) == [c] + CollapseWhitespace(x)
  {
    assert ([c] + x)[1..] == x;
  }

  /** Left-stripping a whitespace run that is followed by visible text leaves that text. */
  lemma {:induction false} TrimLeftRun(sp: string, rest: string)
    requires AllSpace(sp) && (rest == [] || !IsSpace(rest[0]))
    ensures TrimLeft(sp + rest) == rest
    decreases |sp|
  {
    if sp == [] {
      assert sp + rest == rest;
    } else {
      assert (sp + rest)[0] == sp[0];
      assert (sp + rest)[1..] == sp[1..] + rest;
      TrimLeftRun(sp[1..], rest);
    }
  }

  /** A maximal whitespace run, however long and of whatever characters, becomes one space. */
  lemma CollapseSpaceRun(sp: string, rest: string)
    requires sp != [] && AllSpace(sp) && (rest == [] || !IsSpace(rest[0]))
    ensures CollapseWhitespace(sp + rest) == " " + CollapseWhitespace(rest)
  {
    assert (sp + rest)[0] == sp[0];
    TrimLeftRun(sp, rest);
  }

  /** The substitution rule itself: a word, a whitespace run, the rest give the word, one space, the collapsed rest. */
  lemma CollapseRun(w: string, sp: string, rest: string)
    requires NoSpace(w) && sp != [] && AllSpace(sp) && (rest == [] || !IsSpace(rest[0]))
    ensures CollapseWhitespace(w + sp + rest) == w + " " + CollapseWhitespace(rest)
  {
    assert w + sp + rest == w + (sp + rest);
    assert CollapseWhitespace(w + (sp + rest)) == w + CollapseWhitespace(sp + rest) by {
      CollapseWordPrefix(w, sp + rest);
    }
    assert CollapseWhitespace(sp + rest) == " " + CollapseWhitespace(rest) by {
      CollapseSpaceRun(sp, rest);
    }
  }

  /** Right-stripping a concatenation: the right part decides how much goes. */
  lemma {:induction false} TrimRightAppend(p: string, y: string)
    ensures TrimRight(p + y) == if TrimRight(y) == [] then TrimRight(p) else p + TrimRight(y)
    decreases |y|
  {
    if y == [] {
      assert p + y == p;
    } else if IsSpace(y[|y| - 1]) {
      var y' := y[..|y| - 1];
      assert TrimRight(p + y) == TrimRight(p + y') && TrimRight(y) == TrimRight(y') by {
        assert (p + y)[|p + y| - 1] == y[|y| - 1];
        assert (p + y)[..|p + y| - 1] == p + y';
      }
      TrimRightAppend(p, y');
    } else {
      assert (p + y)[|p + y| - 1] == y[|y| - 1];
    }
  }

  /** Text that starts visibly loses only trailing whitespace to `strip()`. */
  lemma StripVisibleStart(x: string)
    requires x == [] || !IsSpace(x[0])
    ensures Strip(x) == TrimRight(x)
  {
    assert TrimLeft(x) == x;
    assert x[0..] == x;
  }

  /** `strip()` drops one leading space in front of visible text. */
  lemma StripSpaceThen(y: string)
    requires y == [] || !IsSpace(y[0])
    ensures Strip(" " + y) == TrimRight(y)
  {
    TrimLeftRun(" ", y);
    assert (" " + y)[1..] == y;
  }

  /** `str.split()` ignores leading whitespace. */
  lemma SplitWordsTrimmed(s: string)
    ensures SplitWords(s) == SplitWords(TrimLeft(s))
  {
    var t := TrimLeft(s);
    assert TrimLeft(t) == t;
  }

  /** A right-stripped collapse of text that starts visibly: its words joined by single spaces. */
  lemma {:induction false} TrimRightCollapseJoin(t: string)
    requires t == [] || !IsSpace(t[0])
    ensures TrimRight(CollapseWhitespace(t)) == Join(SplitWords(t))
    decreases |t|
  {
    if t != [] {
      var w := TakeWord(t);
      var u := t[|w|..];
      FirstWord(t, w, u);
      var v := TrimLeft(u);
      if v != [] { TrimRightCollapseJoin(v); }
      JoinAfterWord(w, u);
    }
  }

  /** Text that starts visibly is its first word and a rest, for the collapse and the split alike. */
  lemma FirstWord(t: string, w: string, u: string)
    requires t != [] && !IsSpace(t[0]) && w == TakeWord(t) && u == t[|w|..]
    ensures t == w + u && w != [] && NoSpace(w) && (u == [] || IsSpace(u[0]))
    ensures CollapseWhitespace(t) == w + CollapseWhitespace(u)
    ensures SplitWords(t) == [w] + SplitWords(u)
  {
    assert t == w + u;
    CollapseWordPrefix(w, u);
    SplitAtWord(t);
  }

  /** One inductive step: a word in front of a rest that starts with whitespace (or is empty). */
  lemma JoinAfterWord(w: string, u: string)
    requires w != [] && NoSpace(w) && (u == [] || IsSpace(u[0]))
    requires TrimLeft(u) != [] ==> TrimRight(CollapseWhitespace(TrimLeft(u))) == Join(SplitWords(TrimLeft(u)))
    ensures TrimRight(w + CollapseWhitespace(u)) == Join([w] + SplitWords(u))
  {
    if u == [] {
      assert w + [] == w;
      WordTrimmed(w);
    } else {
      var v := TrimLeft(u);
      var c := CollapseWhitespace(v);
      SplitWordsTrimmed(u);
      assert CollapseWhitespace(u) == " " + c;
      if v != [] {
        SplitAtWord(v);
        assert TrimRight(c) != [] by {
          assert c[0] == v[0];
        }
      }
      WordSpaceCollapsed(w, c, SplitWords(v));
    }
  }

  lemma WordTrimmed(w: string)
    requires w != [] && NoSpace(w)
    ensures TrimRight(w) == w
  {
    assert !IsSpace(w[|w| - 1]);
  }

  /** A word, a space and a collapsed rest, right-stripped: the word joined to the rest's words. */
  lemma WordSpaceCollapsed(w: string, c: string, ws: seq<string>)
    requires w != [] && NoSpace(w)
    requires (c == [] && ws == []) || (ws != [] && TrimRight(c) != [] && TrimRight(c) == Join(ws))
    ensures TrimRight(w + (" " + c)) == Join([w] + ws)
  {
    assert w + (" " + c) == (w + " ") + c;
    TrimRightAppend(w + " ", c);
    WordTrimmed(w);
    if c == [] {
      assert (w + " ") + c == w + " ";
      TrimRightAppend(w, " ");
    } else {
      JoinTwoOrMore(w, ws);
    }
  }

  lemma JoinTwoOrMore(w: string, ws: seq<string>)
    requires ws != []
    ensures Join([w] + ws) == w + " " + Join(ws)
  {
    assert ([w] + ws)[1..] == ws;
  }

  /** `strip(re.sub(r'\s+', ' ', s))` is `' '.join(s.split())`: the words of `s`, in order, one space apart. */
  lemma StripCollapseJoin(s: string)
    ensures Strip(CollapseWhitespace(s)) == Join(SplitWords(s))
  {
    var t := TrimLeft(s);
    SplitWordsTrimmed(s);
    TrimRightCollapseJoin(t);
    if s != [] && IsSpace(s[0]) {
      StripSpaceThen(CollapseWhitespace(t));
    } else {
      StripVisibleStart(CollapseWhitespace(s));
    }
  }

  lemma {:induction false} VisibleWord(w: string)
    requires NoSpace(w)
    ensures Visible(w) == w
    decreases |w|
  {
    if w != [] { VisibleWord(w[1..]); }
  }

  /** `str.split()` drops the whitespace and nothing else: its words spell the visible characters. */
  lemma {:induction false} SplitWordsVisible(s: string)
    ensures Concat(SplitWords(s)) == Visible(s)
    decreases |s|
  {
    var t := TrimLeft(s);
    assert Visible(s) == Visible(t) && SplitWords(s) == SplitWords(t) by {
      VisibleTrimLeft(s);
      SplitWordsTrimmed(s);
    }
    if t != [] {
      var w := TakeWord(t);
      var u := t[|w|..];
      assert |u| < |s| && t == w + u && NoSpace(w) && SplitWords(t) == [w] + SplitWords(u) by {
        FirstWord(t, w, u);
      }
      SplitWordsVisible(u);
      assert Concat(SplitWords(t)) == Visible(t) by {
        ConcatCons(w, SplitWords(u));
        VisibleWordThen(w, u);
      }
    }
  }

  lemma VisibleTrimLeft(s: string)
    ensures Visible(s) == Visible(TrimLeft(s))
  {
    var t := TrimLeft(s);
    var k := |s| - |t|;
    assert s == s[..k] + t;
    VisibleAppend(s[..k], t);
    VisibleOfSpaces(s[..k]);
  }

  lemma VisibleWordThen(w: string, u: string)
    requires NoSpace(w)
    ensures Visible(w + u) == w + Visible(u)
  {
    VisibleAppend(w, u);
    VisibleWord(w);
  }

  /** Python's `p in s` for strings. */
  predicate IsSubstring(p: string, s: string) {
    exists i | 0 <= i <= |s| - |p| :: OccursAt(p, s, i)
  }

  predicate OccursAt(p: string, s: string, i: int) {
    0 <= i <= |s| - |p| && s[i..i + |p|] == p
  }

  function DigitChar(d: nat): char
    requires d < 10
  {
    ('0' as int + d) as char
  }

  /** `str(n)` for a natural number: its decimal digits, no leading zero. */
  function NatToString(n: nat): (r: string)
    ensures r != []
    ensures forall i :: 0 <= i < |r| ==> '0' <= r[i] <= '9'
    ensures r[|r| - 1] == DigitChar(n % 10)
    ensures |r| == 1 <==> n < 10
  {
    if n < 10 then [DigitChar(n)] else NatToString(n / 10) + [DigitChar(n % 10)]
  }

  /** Distinct numbers print differently, so `str(n)` can serve as a key for `n`. */
  lemma {:induction false} NatToStringInjective(a: nat, b: nat)
    requires NatToString(a) == NatToString(b)
    ensures a == b
  {
    var s := NatToString(a);
    assert DigitChar(a % 10) == DigitChar(b % 10);
    if a >= 10 {
      assert b >= 10;
      assert NatToString(a / 10) == s[..|s| - 1] == NatToString(b / 10);
      NatToStringInjective(a / 10, b / 10);
    }
  }

  /** The index of the last occurrence of `c` in `s`, if any. */
  function LastIndexOf(s: string, c: char): (r: Option<nat>)
    ensures r.Some? ==> r.value < |s| && s[r.value] == c && c !in s[r.value + 1..]
    ensures r.None? ==> c !in s
  {
    if s == [] then None
    else if s[|s| - 1] == c then Some(|s| - 1)
    else LastIndexOf(s[..|s| - 1], c)
  }

  /** The last occurrence is the one with no occurrence after it. */
  lemma LastIndexOfIs(s: string, c: char, k: nat)
    requires k < |s| && s[k] == c && c !in s[k + 1..]
    ensures LastIndexOf(s, c) == Some(k)
  {
    assert s[k] in s;
    var j := LastIndexOf(s, c).value;
    NoneAfter(s, c, j);
    NoneAfter(s, c, k);
  }

  lemma NoneAfter(s: string, c: char, j: nat)
    requires j < |s| && c !in s[j + 1..]
    ensures forall t :: j < t < |s| ==> s[t] != c
  {
    forall t | j < t < |s| ensures s[t] != c {
      assert s[t] == s[j + 1..][t - j - 1];
    }
  }
}
