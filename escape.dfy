/**
 * `escapeHtml` of static/js-main.js: five global single-character
 * replacements applied one after the other, `&` first. The chain is shown to
 * be the same as escaping each character on its own, which gives the three
 * promises a caller relies on: no markup character survives, every `&` of the
 * output opens one of the five entities, and decoding those entities gives the
 * text back.
 */
module HtmlEscape {
  import opened Seqs
  import opened Text

  /** `s.replace(/c/g, r)` for a one-character pattern: every `c` becomes `r`. */
  function Replace(s: string, c: char, r: string): string {
    FlatMap((x: char) => if x == c then r else [x], s)
  }

  /** `escapeHtml(text)`: `&` is replaced first, then the four stages below, in order. */
  function EscapeHtml(text: string): string {
    EscapeLt(Replace(text, '&', "&amp;"))
  }

  /** The stages of the chain after `&`: `<`, `>`, `"` and `'`. */
  function EscapeLt(s: string): string {
    EscapeGt(Replace(s, '<', "&lt;"))
  }

  function EscapeGt(s: string): string {
    EscapeQuot(Replace(s, '>', "&gt;"))
  }

  function EscapeQuot(s: string): string {
    EscapeApos(Replace(s, '"', "&quot;"))
  }

  function EscapeApos(s: string): string {
    Replace(s, '\'', "&#039;")
  }

  /** What a single character escapes to. */
  function EscapeChar(c: char): (r: string)
    ensures '<' !in r && '>' !in r && '"' !in r && '\'' !in r
  {
    match c
    case '&' => "&amp;"
    case '<' => "&lt;"
    case '>' => "&gt;"
    case '"' => "&quot;"
    case '\'' => "&#039;"
    case _ => [c]
  }

  /** Decoding of the five entities `escapeHtml` produces; any other character stands for itself. */
  function Unescape(s: string): string
    decreases |s|
  {
    if s == [] then []
    else if "&amp;" <= s then "&" + Unescape(s[5..])
    else if "&lt;" <= s then "<" + Unescape(s[4..])
    else if "&gt;" <= s then ">" + Unescape(s[4..])
    else if "&quot;" <= s then "\"" + Unescape(s[6..])
    else if "&#039;" <= s then "'" + Unescape(s[6..])
    else [s[0]] + Unescape(s[1..])
  }

  /** One of the five entities starts at index `k` of `s`. */
  predicate EntityAt(s: string, k: int) {
    || OccursAt("&amp;", s, k)
    || OccursAt("&lt;", s, k)
    || OccursAt("&gt;", s, k)
    || OccursAt("&quot;", s, k)
    || OccursAt("&#039;", s, k)
  }

  lemma {:induction false} ReplaceAbsent(s: string, c: char, r: string)
    requires c !in s
    ensures Replace(s, c, r) == s
    decreases |s|
  {
    if s != [] {
      var n := |s| - 1;
      assert s == s[..n] + [s[n]];
      ReplaceAbsent(s[..n], c, r);
    }
  }

  lemma ReplaceAppend(a: string, b: string, c: char, r: string)
    ensures Replace(a + b, c, r) == Replace(a, c, r) + Replace(b, c, r)
  {
    FlatMapAppend((x: char) => if x == c then r else [x], a, b);
  }

  lemma ReplaceOne(x: char, c: char, r: string)
    ensures Replace([x], c, r) == if x == c then r else [x]
  {
    FlatMapSingle((y: char) => if y == c then r else [y], x);
  }

  /** The chain distributes over concatenation. */
  lemma EscapeAppend(a: string, b: string)
    ensures EscapeHtml(a + b) == EscapeHtml(a) + EscapeHtml(b)
  {
    ReplaceAppend(a, b, '&', "&amp;");
    var a1, b1 := Replace(a, '&', "&amp;"), Replace(b, '&', "&amp;");
    ReplaceAppend(a1, b1, '<', "&lt;");
    var a2, b2 := Replace(a1, '<', "&lt;"), Replace(b1, '<', "&lt;");
    ReplaceAppend(a2, b2, '>', "&gt;");
    var a3, b3 := Replace(a2, '>', "&gt;"), Replace(b2, '>', "&gt;");
    ReplaceAppend(a3, b3, '"', "&quot;");
    var a4, b4 := Replace(a3, '"', "&quot;"), Replace(b3, '"', "&quot;");
    ReplaceAppend(a4, b4, '\'', "&#039;");
  }

  lemma AposOne(x: char)
    ensures EscapeApos([x]) == if x == '\'' then "&#039;" else [x]
  {
    ReplaceOne(x, '\'', "&#039;");
  }

  lemma QuotOne(x: char)
    ensures EscapeQuot([x]) == if x == '"' then "&quot;" else EscapeApos([x])
  {
    ReplaceOne(x, '"', "&quot;");
    if x == '"' {
      ReplaceAbsent("&quot;", '\'', "&#039;");
    }
  }

  lemma GtOne(x: char)
    ensures EscapeGt([x]) == if x == '>' then "&gt;" else EscapeQuot([x])
  {
    ReplaceOne(x, '>', "&gt;");
    if x == '>' {
      ReplaceAbsent("&gt;", '"', "&quot;");
      ReplaceAbsent("&gt;", '\'', "&#039;");
    }
  }

  lemma LtOne(x: char)
    ensures EscapeLt([x]) == if x == '<' then "&lt;" else EscapeGt([x])
  {
    ReplaceOne(x, '<', "&lt;");
    if x == '<' {
      ReplaceAbsent("&lt;", '>', "&gt;");
      ReplaceAbsent("&lt;", '"', "&quot;");
      ReplaceAbsent("&lt;", '\'', "&#039;");
    }
  }

  lemma AmpOne(x: char)
    ensures EscapeHtml([x]) == if x == '&' then "&amp;" else EscapeLt([x])
  {
    ReplaceOne(x, '&', "&amp;");
    if x == '&' {
      ReplaceAbsent("&amp;", '<', "&lt;");
      ReplaceAbsent("&amp;", '>', "&gt;");
      ReplaceAbsent("&amp;", '"', "&quot;");
      ReplaceAbsent("&amp;", '\'', "&#039;");
    }
  }

  /**
   * On one character the chain gives that character's entity: no later
   * replacement touches what an earlier one inserted, because `&` goes first.
   */
  lemma EscapeOne(x: char)
    ensures EscapeHtml([x]) == EscapeChar(x)
  {
    AmpOne(x);
    LtOne(x);
    GtOne(x);
    QuotOne(x);
    AposOne(x);
  }

  /** The replacement chain escapes each character independently, in order. */
  lemma {:induction false} EscapeSinglePass(text: string)
    ensures EscapeHtml(text) == FlatMap(EscapeChar, text)
    decreases |text|
  {
    if text != [] {
      var n := |text| - 1;
      assert text == text[..n] + [text[n]];
      EscapeAppend(text[..n], [text[n]]);
      EscapeOne(text[n]);
      EscapeSinglePass(text[..n]);
    }
  }

  /** The escaped text contains none of `<`, `>`, `"` and `'`. */
  lemma EscapeNoMarkup(text: string)
    ensures var r := EscapeHtml(text);
            '<' !in r && '>' !in r && '"' !in r && '\'' !in r
  {
    EscapeSinglePass(text);
    FlatMapMember(EscapeChar, text, '<');
    FlatMapMember(EscapeChar, text, '>');
    FlatMapMember(EscapeChar, text, '"');
    FlatMapMember(EscapeChar, text, '\'');
  }

  lemma OccursAtAppend(p: string, a: string, b: string, k: int)
    ensures OccursAt(p, a, k) ==> OccursAt(p, a + b, k)
    ensures OccursAt(p, b, k) ==> OccursAt(p, a + b, |a| + k)
  {
    if OccursAt(p, a, k) {
      assert (a + b)[k..k + |p|] == a[k..k + |p|];
    }
    if OccursAt(p, b, k) {
      assert (a + b)[|a| + k..|a| + k + |p|] == b[k..k + |p|];
    }
  }

  /** An entity stays an entity when text is added on either side. */
  lemma EntityAtAppend(a: string, b: string, k: int)
    ensures EntityAt(a, k) ==> EntityAt(a + b, k)
    ensures EntityAt(b, k) ==> EntityAt(a + b, |a| + k)
  {
    OccursAtAppend("&amp;", a, b, k);
    OccursAtAppend("&lt;", a, b, k);
    OccursAtAppend("&gt;", a, b, k);
    OccursAtAppend("&quot;", a, b, k);
    OccursAtAppend("&#039;", a, b, k);
  }

  /** In one character's escape, an `&` can only be the first character, opening its entity. */
  lemma AmpersandInEscapeChar(c: char, k: int)
    requires 0 <= k < |EscapeChar(c)| && EscapeChar(c)[k] == '&'
    ensures k == 0 && EntityAt(EscapeChar(c), 0)
  {
  }

  /** Every `&` of `s` starts one of the five entities. */
  predicate AmpersandsOpen(s: string) {
    forall k :: 0 <= k < |s| && s[k] == '&' ==> EntityAt(s, k)
  }

  /** Every `&` of per-character escaping opens an entity. */
  lemma {:induction false} AmpersandsOpenEntities(text: string)
    ensures AmpersandsOpen(FlatMap(EscapeChar, text))
    decreases |text|
  {
    if text != [] {
      var n := |text| - 1;
      var init := FlatMap(EscapeChar, text[..n]);
      var last := EscapeChar(text[n]);
      var r := FlatMap(EscapeChar, text);
      assert r == init + last;
      AmpersandsOpenEntities(text[..n]);
      forall k | 0 <= k < |r| && r[k] == '&' ensures EntityAt(r, k) {
        if k < |init| {
          assert init[k] == '&';
          assert EntityAt(init, k);
          EntityAtAppend(init, last, k);
        } else {
          assert last[k - |init|] == '&';
          AmpersandInEscapeChar(text[n], k - |init|);
          EntityAtAppend(init, last, 0);
          assert EntityAt(init + last, |init|);
        }
      }
    }
  }

  /** Every `&` in the output of `escapeHtml` starts one of the five entities. */
  lemma EscapeAmpersands(text: string)
    ensures AmpersandsOpen(EscapeHtml(text))
  {
    EscapeSinglePass(text);
    AmpersandsOpenEntities(text);
  }

  /** A character that `escapeHtml` keeps is decoded as itself. */
  lemma UnescapePlain(c: char, rest: string)
    requires c != '&'
    ensures Unescape([c] + rest) == [c] + Unescape(rest)
  {
    var s := [c] + rest;
    assert s[0] == c && s[1..] == rest;
    assert !("&amp;" <= s) && !("&lt;" <= s) && !("&gt;" <= s) && !("&quot;" <= s) && !("&#039;" <= s);
  }

  /** An entity at the front is decoded to its character. */
  lemma UnescapeEntity(e: string, c: char, rest: string)
    requires e == EscapeChar(c) && c in "&<>\"'"
    ensures Unescape(e + rest) == [c] + Unescape(rest)
  {
    var s := e + rest;
    assert s[..|e|] == e && s[|e|..] == rest;
    assert e <= s;
    assert s[0] == '&' && s[1] == e[1];
    if c != '&' {
      assert !("&amp;" <= s);
    }
    if c == '>' || c == '"' || c == '\'' {
      assert !("&lt;" <= s);
    }
    if c == '"' || c == '\'' {
      assert !("&gt;" <= s);
    }
    if c == '\'' {
      assert !("&quot;" <= s);
    }
  }

  lemma UnescapeOne(c: char, rest: string)
    ensures Unescape(EscapeChar(c) + rest) == [c] + Unescape(rest)
  {
    if c in "&<>\"'" {
      UnescapeEntity(EscapeChar(c), c, rest);
    } else {
      UnescapePlain(c, rest);
    }
  }

  /** Decoding the entities undoes `escapeHtml`. */
  lemma {:induction false} UnescapeEscape(text: string)
    ensures Unescape(EscapeHtml(text)) == text
    decreases |text|
  {
    if text != [] {
      assert text == [text[0]] + text[1..];
      EscapeAppend([text[0]], text[1..]);
      EscapeOne(text[0]);
      UnescapeOne(text[0], EscapeHtml(text[1..]));
      UnescapeEscape(text[1..]);
    }
  }
}
