/**
 * Output segments of the simplified view and their two renderings: plain text, and
 * HTML where every segment is escaped and the italic ones are wrapped in an
 * emphasis span.
 */
module Segments {

  /** A piece of the simplified output; italic pieces came from the IPA. */
  datatype Segment = Segment(text: string, italic: bool)

  /** `segments.map(segment => segment.text).join('')`. */
  function PlainText(segs: seq<Segment>): string {
    if segs == [] then "" else segs[0].text + PlainText(segs[1..])
  }

  lemma {:induction false} PlainTextAppend(a: seq<Segment>, b: seq<Segment>)
    ensures PlainText(a + b) == PlainText(a) + PlainText(b)
    decreases |a|
  {
    if a == [] {
      assert a + b == b;
    } else {
      assert (a + b)[0] == a[0];
      assert (a + b)[1..] == a[1..] + b;
      PlainTextAppend(a[1..], b);
    }
  }

  // ---------------------------------------------------------------------------
  // escapeHtml

  /** `value.replace(/c/g, rep)` for a one-character pattern. */
  function ReplaceChar(s: string, c: char, rep: string): (r: string)
    ensures c !in rep ==> c !in r
    ensures c !in s ==> r == s
  {
    if s == [] then []
    else (if s[0] == c then rep else [s[0]]) + ReplaceChar(s[1..], c, rep)
  }

  lemma {:induction false} ReplaceCharAppend(a: string, b: string, c: char, rep: string)
    ensures ReplaceChar(a + b, c, rep) == ReplaceChar(a, c, rep) + ReplaceChar(b, c, rep)
    decreases |a|
  {
    if a == [] {
      assert a + b == b;
    } else {
      assert (a + b)[0] == a[0];
      assert (a + b)[1..] == a[1..] + b;
      ReplaceCharAppend(a[1..], b, c, rep);
    }
  }

  /**
   * `escapeHtml`: five global replacements applied in sequence, the ampersand first so
   * that the entities introduced by the later ones are not escaped again.
   */
  function EscapeHtml(value: string): string {
    var amp := ReplaceChar(value, '&', "&amp;");
    var lt := ReplaceChar(amp, '<', "&lt;");
    var gt := ReplaceChar(lt, '>', "&gt;");
    var quot := ReplaceChar(gt, '"', "&quot;");
    ReplaceChar(quot, '\'', "&#39;")
  }

  /** The entity each character is written as, independently of its neighbours. */
  function EscapeChar(c: char): string {
    if c == '&' then "&amp;"
    else if c == '<' then "&lt;"
    else if c == '>' then "&gt;"
    else if c == '"' then "&quot;"
    else if c == '\'' then "&#39;"
    else [c]
  }

  function EscapeEach(s: string): string {
    if s == [] then "" else EscapeChar(s[0]) + EscapeEach(s[1..])
  }

  lemma {:induction false} EscapeHtmlAppend(a: string, b: string)
    ensures EscapeHtml(a + b) == EscapeHtml(a) + EscapeHtml(b)
  {
    var amp := ReplaceChar(a + b, '&', "&amp;");
    ReplaceCharAppend(a, b, '&', "&amp;");
    var a1, b1 := ReplaceChar(a, '&', "&amp;"), ReplaceChar(b, '&', "&amp;");
    ReplaceCharAppend(a1, b1, '<', "&lt;");
    var a2, b2 := ReplaceChar(a1, '<', "&lt;"), ReplaceChar(b1, '<', "&lt;");
    ReplaceCharAppend(a2, b2, '>', "&gt;");
    var a3, b3 := ReplaceChar(a2, '>', "&gt;"), ReplaceChar(b2, '>', "&gt;");
    ReplaceCharAppend(a3, b3, '"', "&quot;");
    var a4, b4 := ReplaceChar(a3, '"', "&quot;"), ReplaceChar(b3, '"', "&quot;");
    ReplaceCharAppend(a4, b4, '\'', "&#39;");
  }

  lemma {:induction false} ReplaceCharSingle(c: char, d: char, rep: string)
    ensures ReplaceChar([c], d, rep) == if c == d then rep else [c]
  {
    assert [c][1..] == [];
  }

  lemma {:induction false} EscapeHtmlOneChar(c: char)
    ensures EscapeHtml([c]) == EscapeChar(c)
  {
    EscapeCharNoMarkup(c);
    ReplaceCharSingle(c, '&', "&amp;");
    if c != '&' {
      ReplaceCharSingle(c, '<', "&lt;");
      if c != '<' {
        ReplaceCharSingle(c, '>', "&gt;");
        if c != '>' {
          ReplaceCharSingle(c, '"', "&quot;");
          if c != '"' {
            ReplaceCharSingle(c, '\'', "&#39;");
          }
        }
      }
    }
  }

  /** The chained replacements escape each character on its own. */
  lemma {:induction false} EscapeHtmlPerChar(s: string)
    ensures EscapeHtml(s) == EscapeEach(s)
    decreases |s|
  {
    if s != [] {
      assert s == [s[0]] + s[1..];
      EscapeHtmlAppend([s[0]], s[1..]);
      EscapeHtmlOneChar(s[0]);
      EscapeHtmlPerChar(s[1..]);
    }
  }

  /** No entity holds a markup character. */
  lemma {:induction false} EscapeCharNoMarkup(c: char)
    ensures '<' !in EscapeChar(c) && '>' !in EscapeChar(c) && '"' !in EscapeChar(c) && '\'' !in EscapeChar(c)
  {
    var e := EscapeChar(c);
    forall k | 0 <= k < |e| ensures e[k] !in {'<', '>', '"', '\''} {
      if c == '&' { assert e == "&amp;"; }
      else if c == '<' { assert e == "&lt;"; }
      else if c == '>' { assert e == "&gt;"; }
      else if c == '"' { assert e == "&quot;"; }
      else if c == '\'' { assert e == "&#39;"; }
    }
  }

  lemma {:induction false} EscapeEachNoMarkup(s: string)
    ensures '<' !in EscapeEach(s) && '>' !in EscapeEach(s) && '"' !in EscapeEach(s) && '\'' !in EscapeEach(s)
    decreases |s|
  {
    if s != [] {
      EscapeCharNoMarkup(s[0]);
      EscapeEachNoMarkup(s[1..]);
    }
  }

  /** The escaped text holds no character that HTML would read as markup. */
  lemma {:induction false} EscapeHtmlNoMarkup(s: string)
    ensures '<' !in EscapeHtml(s) && '>' !in EscapeHtml(s) && '"' !in EscapeHtml(s) && '\'' !in EscapeHtml(s)
  {
    EscapeHtmlPerChar(s);
    EscapeEachNoMarkup(s);
  }

  /** Decodes the five entities `escapeHtml` writes; any other character stands for itself. */
  function Unescape(s: string): string
    decreases |s|
  {
    if s == [] then ""
    else if "&amp;" <= s then "&" + Unescape(s[5..])
    else if "&lt;" <= s then "<" + Unescape(s[4..])
    else if "&gt;" <= s then ">" + Unescape(s[4..])
    else if "&quot;" <= s then "\"" + Unescape(s[6..])
    else if "&#39;" <= s then "'" + Unescape(s[5..])
    else [s[0]] + Unescape(s[1..])
  }

  lemma {:induction false} UnescapeChar(c: char, rest: string)
    ensures Unescape(EscapeChar(c) + rest) == [c] + Unescape(rest)
  {
    if c == '&' {
      UnescapeAmp(rest);
    } else if c == '<' || c == '>' {
      UnescapeAngle(c, rest);
    } else if c == '"' {
      UnescapeQuot(rest);
    } else if c == '\'' {
      UnescapeApos(rest);
    } else {
      var t := [c] + rest;
      assert t[0] == c && t[1..] == rest;
    }
  }

  lemma {:induction false} UnescapeAmp(rest: string)
    ensures Unescape("&amp;" + rest) == "&" + Unescape(rest)
  {
    var t := "&amp;" + rest;
    assert "&amp;" <= t && t[5..] == rest;
  }

  /** The two angle brackets, whose entities are four characters long. */
  lemma {:induction false} UnescapeAngle(c: char, rest: string)
    requires c == '<' || c == '>'
    ensures Unescape(EscapeChar(c) + rest) == [c] + Unescape(rest)
  {
    var e := EscapeChar(c);
    var t := e + rest;
    assert t[1] == e[1] == (if c == '<' then 'l' else 'g');
    assert e <= t && t[4..] == rest;
  }

  lemma {:induction false} UnescapeQuot(rest: string)
    ensures Unescape("&quot;" + rest) == "\"" + Unescape(rest)
  {
    var t := "&quot;" + rest;
    assert t[1] == 'q';
    assert "&quot;" <= t && t[6..] == rest;
  }

  lemma {:induction false} UnescapeApos(rest: string)
    ensures Unescape("&#39;" + rest) == "'" + Unescape(rest)
  {
    var t := "&#39;" + rest;
    assert t[1] == '#';
    assert "&#39;" <= t && t[5..] == rest;
  }

  /** Escaping loses nothing: decoding the entities gives back the text. */
  lemma {:induction false} UnescapeEscapeHtml(s: string)
    ensures Unescape(EscapeHtml(s)) == s
  {
    EscapeHtmlPerChar(s);
    UnescapeEscapeEach(s);
  }

  lemma {:induction false} UnescapeEscapeEach(s: string)
    ensures Unescape(EscapeEach(s)) == s
    decreases |s|
  {
    if s != [] {
      UnescapeChar(s[0], EscapeEach(s[1..]));
      UnescapeEscapeEach(s[1..]);
    }
  }

  // ---------------------------------------------------------------------------
  // renderSegment

  const OpenTag: string := "<span class=\"ipa-emphasis\">"
  const CloseTag: string := "</span>"

  /** `renderSegment`: escaped text, inside the emphasis span only when italic. */
  function RenderSegment(segment: Segment): (r: string)
    ensures !segment.italic ==> '<' !in r
    ensures segment.italic <==> OpenTag <= r
  {
    var escaped := EscapeHtml(segment.text);
    EscapeHtmlNoMarkup(segment.text);
    if !segment.italic then
      assert escaped != [] ==> escaped[0] != '<' by {
        if escaped != [] { assert escaped[0] in escaped; }
      }
      escaped
    else OpenTag + escaped + CloseTag
  }

  /** Reads a rendered segment back: the span says it is italic, the entities give the text. */
  function ParseSegment(html: string): Segment {
    if OpenTag <= html && |html| >= |OpenTag| + |CloseTag| && html[|html| - |CloseTag|..] == CloseTag
    then Segment(Unescape(html[|OpenTag|..|html| - |CloseTag|]), true)
    else Segment(Unescape(html), false)
  }

  /** A rendered segment determines the segment: its text and whether it is italic. */
  lemma {:induction false} ParseRenderSegment(segment: Segment)
    ensures ParseSegment(RenderSegment(segment)) == segment
  {
    var escaped := EscapeHtml(segment.text);
    UnescapeEscapeHtml(segment.text);
    if segment.italic {
      var html := OpenTag + escaped + CloseTag;
      assert html[|OpenTag|..|html| - |CloseTag|] == escaped;
      assert html[|html| - |CloseTag|..] == CloseTag;
    }
  }

  /** `segments.map(segment => renderSegment(segment)).join('')`. */
  function HtmlText(segs: seq<Segment>): string {
    if segs == [] then "" else RenderSegment(segs[0]) + HtmlText(segs[1..])
  }

  predicate NoItalic(segs: seq<Segment>) {
    forall k :: 0 <= k < |segs| ==> !segs[k].italic
  }

  /** Without italic segments the HTML is the escaped plain text. */
  lemma {:induction false} HtmlOfPlainSegments(segs: seq<Segment>)
    requires NoItalic(segs)
    ensures HtmlText(segs) == EscapeHtml(PlainText(segs))
    decreases |segs|
  {
    if segs != [] {
      HtmlOfPlainSegments(segs[1..]);
      EscapeHtmlAppend(segs[0].text, PlainText(segs[1..]));
    }
  }
}
