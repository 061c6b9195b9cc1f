/**
 * The simplified hybrid output: the original text with each word rebuilt from its IPA
 * word, everything between the words kept as it is, line by line when both texts have
 * the same number of lines.
 */
module SimplifiedOutput {
  import opened Text
  import opened Segments
  import opened WordScanner
  import opened SimplifiedWord

  // ---------------------------------------------------------------------------
  // One line

  /**
   * The segments the single-line builder pushes for the matches `ms`, from the cursor
   * state `lastIndex` (end of the previous match) and `wordIndex` (its position) on:
   * the gap before each match, the word (simplified while an IPA word is left for it,
   * as it is afterwards), and finally the rest of the text.
   */
  function Assemble(s: string, ms: seq<WordMatch>, ipaWords: seq<string>, lastIndex: nat, wordIndex: nat): seq<Segment>
    requires Tiles(s, ms, lastIndex)
    decreases |ms|
  {
    if ms == [] then [Segment(s[lastIndex..], false)]
    else
      var m := ms[0];
      var wordSegments := if wordIndex < |ipaWords| then WordSegments(m.word, ipaWords[wordIndex]) else [Segment(m.word, false)];
      [Segment(s[lastIndex..m.index], false)] + wordSegments + Assemble(s, ms[1..], ipaWords, End(m), wordIndex + 1)
  }

  /**
   * What `buildSimplifiedOutputSegmentsSingleLine` returns: the text as one plain segment
   * when it has no word or the IPA has none, the assembled segments otherwise (a word
   * count mismatch only produces a warning).
   */
  function SingleLineSegments(originalText: string, ipaText: string): seq<Segment> {
    var ipaWords := Tokenize(ipaText);
    var ms := WordMatches(originalText);
    if |ms| == 0 || |ipaWords| == 0 then [Segment(originalText, false)]
    else Assemble(originalText, ms, ipaWords, 0, 0)
  }

  /**
   * `buildSimplifiedOutputSegmentsSingleLine`. The loop keeps the cursor at the end of
   * the previous match and the pushed segments equal to the layout's first `k` pieces.
   */
  method BuildSimplifiedOutputSegmentsSingleLine(originalText: string, ipaText: string) returns (result: seq<Segment>)
    ensures result == SingleLineSegments(originalText, ipaText)
  {
    var ipaWords := Tokenize(ipaText);
    var wordMatches := WordMatches(originalText);
    if |wordMatches| == 0 || |ipaWords| == 0 {
      return [Segment(originalText, false)];
    }
    ghost var pieces := Pieces(originalText, wordMatches, ipaWords);
    result := [];
    var lastIndex: nat := 0;
    var wordIndex := 0;
    for k := 0 to |wordMatches|
      invariant wordIndex == k
      invariant lastIndex == GapStart(wordMatches, k)
      invariant result == Flatten(pieces[..k])
    {
      NextMatchBounds(originalText, wordMatches, k);
      var matchIndex := wordMatches[k].index;
      var word := wordMatches[k].word;
      var gap := Segment(originalText[lastIndex..matchIndex], false);
      ghost var before := result;
      result := result + [gap];
      var wordSegments := SegmentsOfWord(word, ipaWords, wordIndex);
      result := result + wordSegments;
      lastIndex := matchIndex + |word|;
      wordIndex := wordIndex + 1;
      PushPiece(originalText, wordMatches, ipaWords, k, before, wordSegments);
    }
    LayoutEnd(originalText, ipaText, result);
    result := result + [Segment(originalText[lastIndex..], false)];
  }

  /** The word's segments in the single-line builder: simplified while an IPA word is left for it. */
  method SegmentsOfWord(word: string, ipaWords: seq<string>, wordIndex: nat) returns (wordSegments: seq<Segment>)
    ensures wordSegments == WordOutput(word, ipaWords, wordIndex)
  {
    if wordIndex < |ipaWords| {
      wordSegments := SimplifyWord(word, ipaWords[wordIndex]);
    } else {
      wordSegments := [Segment(word, false)];
    }
  }

  /** Match `k` lies after the end of match `k - 1` and inside the text. */
  lemma NextMatchBounds(s: string, ms: seq<WordMatch>, k: nat)
    requires Tiles(s, ms, 0) && k < |ms|
    ensures GapStart(ms, k) <= ms[k].index <= End(ms[k]) <= |s|
    ensures End(ms[k]) == GapStart(ms, k + 1)
  {
    TilesSuffix(s, ms, k);
    assert ms[k..][0] == ms[k];
  }

  /** Pushing the gap before match `k` and its word's segments adds piece `k` of the layout. */
  lemma {:induction false} PushPiece(s: string, ms: seq<WordMatch>, ipaWords: seq<string>, k: nat,
                                     before: seq<Segment>, wordSegments: seq<Segment>)
    requires Tiles(s, ms, 0) && k < |ms|
    requires before == Flatten(Pieces(s, ms, ipaWords)[..k])
    requires wordSegments == WordOutput(ms[k].word, ipaWords, k)
    ensures GapStart(ms, k) <= ms[k].index <= |s|
    ensures before + [Segment(s[GapStart(ms, k)..ms[k].index], false)] + wordSegments
         == Flatten(Pieces(s, ms, ipaWords)[..k + 1])
  {
    NextMatchBounds(s, ms, k);
    var ps := Pieces(s, ms, ipaWords);
    assert ps[k] == [Segment(s[GapStart(ms, k)..ms[k].index], false)] + wordSegments;
    assert ps[..k + 1] == ps[..k] + [ps[k]];
    FlattenSnoc(ps[..k], ps[k]);
  }

  /** Flattening one more piece appends it. */
  lemma {:induction false} FlattenSnoc(pieces: seq<seq<Segment>>, last: seq<Segment>)
    ensures Flatten(pieces + [last]) == Flatten(pieces) + last
    decreases |pieces|
  {
    if pieces == [] {
      assert [] + [last] == [last];
      assert Flatten([last]) == last + Flatten([]);
    } else {
      assert (pieces + [last])[0] == pieces[0] && (pieces + [last])[1..] == pieces[1..] + [last];
      FlattenSnoc(pieces[1..], last);
    }
  }

  /** After the last match, only the text after it is left to push. */
  lemma {:induction false} LayoutEnd(s: string, ipaText: string, result: seq<Segment>)
    requires WordMatches(s) != [] && Tokenize(ipaText) != []
    requires result == Flatten(Pieces(s, WordMatches(s), Tokenize(ipaText))[..|WordMatches(s)|])
    ensures GapStart(WordMatches(s), |WordMatches(s)|) <= |s|
    ensures result + [Segment(s[GapStart(WordMatches(s), |WordMatches(s)|)..], false)] == SingleLineSegments(s, ipaText)
  {
    var ms := WordMatches(s);
    var ps := Pieces(s, ms, Tokenize(ipaText));
    SingleLineLayout(s, ipaText);
    assert ps[..|ms|] == ps;
    TilesSuffix(s, ms, |ms|);
    assert Gap(s, ms, |ms|) == s[GapStart(ms, |ms|)..];
  }

  lemma SliceCons<T>(s: seq<T>, k: nat)
    requires k < |s|
    ensures s[k..] == [s[k]] + s[k + 1..]
  {
  }

  lemma AppendAssoc<T>(a: seq<T>, b: seq<T>, c: seq<T>, d: seq<T>)
    ensures a + b + c + d == a + (b + c + d)
  {
  }

  /** One step of the single-line builder: the gap, the word, and the rest. */
  lemma {:induction false} AssembleStep(s: string, ms: seq<WordMatch>, ipaWords: seq<string>, lastIndex: nat, wordIndex: nat)
    requires Tiles(s, ms, lastIndex) && ms != []
    ensures lastIndex <= ms[0].index <= End(ms[0]) <= |s|
    ensures Tiles(s, ms[1..], End(ms[0]))
    ensures Assemble(s, ms, ipaWords, lastIndex, wordIndex)
      == [Segment(s[lastIndex..ms[0].index], false)]
         + (if wordIndex < |ipaWords| then WordSegments(ms[0].word, ipaWords[wordIndex]) else [Segment(ms[0].word, false)])
         + Assemble(s, ms[1..], ipaWords, End(ms[0]), wordIndex + 1)
  {
  }

  /** The words from position `wordIndex` on are left as they are: numeric, or past the IPA words. */
  predicate AllKept(ms: seq<WordMatch>, ipaWords: seq<string>, wordIndex: nat) {
    forall k :: 0 <= k < |ms| ==> wordIndex + k >= |ipaWords| || IsNumericToken(ms[k].word)
  }

  /**
   * Text outside the matches is emitted verbatim, and numeric words and words past the
   * last IPA word come out unchanged: when every word is of these kinds the segments
   * spell the text and none is italic.
   */
  lemma {:induction false} AssembleKeepsText(s: string, ms: seq<WordMatch>, ipaWords: seq<string>, lastIndex: nat, wordIndex: nat)
    requires Tiles(s, ms, lastIndex)
    requires AllKept(ms, ipaWords, wordIndex)
    ensures PlainText(Assemble(s, ms, ipaWords, lastIndex, wordIndex)) == s[lastIndex..]
    ensures NoItalic(Assemble(s, ms, ipaWords, lastIndex, wordIndex))
    decreases |ms|
  {
    if ms != [] {
      var m := ms[0];
      AssembleStep(s, ms, ipaWords, lastIndex, wordIndex);
      KeptTail(ms, ipaWords, wordIndex);
      AssembleKeepsText(s, ms[1..], ipaWords, End(m), wordIndex + 1);
      var gap := [Segment(s[lastIndex..m.index], false)];
      var w := [Segment(m.word, false)];
      var rest := Assemble(s, ms[1..], ipaWords, End(m), wordIndex + 1);
      KeptPieces(s, lastIndex, m, gap, w, rest);
    }
  }

  /** The words after the first of a kept run are kept too. */
  lemma KeptTail(ms: seq<WordMatch>, ipaWords: seq<string>, wordIndex: nat)
    requires ms != [] && AllKept(ms, ipaWords, wordIndex)
    ensures wordIndex >= |ipaWords| || IsNumericToken(ms[0].word)
    ensures AllKept(ms[1..], ipaWords, wordIndex + 1)
  {
    assert 0 < |ms|;
    forall k | 0 <= k < |ms[1..]| ensures wordIndex + 1 + k >= |ipaWords| || IsNumericToken(ms[1..][k].word) {
      assert ms[1..][k] == ms[k + 1];
    }
  }

  /** Gluing a kept gap, a kept word and a kept rest back together spells the text from the gap on. */
  lemma KeptPieces(s: string, lastIndex: nat, m: WordMatch, gap: seq<Segment>, w: seq<Segment>, rest: seq<Segment>)
    requires lastIndex <= m.index <= End(m) <= |s| && s[m.index..End(m)] == m.word
    requires gap == [Segment(s[lastIndex..m.index], false)] && w == [Segment(m.word, false)]
    requires PlainText(rest) == s[End(m)..] && NoItalic(rest)
    ensures PlainText(gap + w + rest) == s[lastIndex..]
    ensures NoItalic(gap + w + rest)
  {
    PlainTextAppend(gap + w, rest);
    PlainTextAppend(gap, w);
    assert PlainText(gap) == s[lastIndex..m.index];
    assert PlainText(w) == m.word;
    SplitThree(s, lastIndex, m.index, End(m));
  }

  lemma SplitThree(s: string, a: nat, b: nat, c: nat)
    requires a <= b <= c <= |s|
    ensures s[a..] == s[a..b] + s[b..c] + s[c..]
  {
    assert s[b..] == s[b..c] + s[c..];
    assert s[a..] == s[a..b] + s[b..];
  }

  /**
   * A line whose words are all numeric or beyond the IPA words (in particular a line
   * with no IPA words at all) comes back as it is, with nothing in italics.
   */
  lemma {:induction false} SingleLineKeepsText(originalText: string, ipaText: string)
    requires AllKept(WordMatches(originalText), Tokenize(ipaText), 0)
    ensures PlainText(SingleLineSegments(originalText, ipaText)) == originalText
    ensures NoItalic(SingleLineSegments(originalText, ipaText))
  {
    var ms := WordMatches(originalText);
    var ipaWords := Tokenize(ipaText);
    if |ms| == 0 || |ipaWords| == 0 {
      assert PlainText([Segment(originalText, false)]) == originalText;
    } else {
      AssembleKeepsText(originalText, ms, ipaWords, 0, 0);
    }
  }

  /** Where the gap before match `k` starts: the start of the line, or the end of match `k - 1`. */
  function GapStart(ms: seq<WordMatch>, k: nat): nat
    requires k <= |ms|
  {
    if k == 0 then 0 else End(ms[k - 1])
  }

  /** The matches from `k` on tile the line from the end of the match before them. */
  lemma {:induction false} TilesSuffix(s: string, ms: seq<WordMatch>, k: nat)
    requires Tiles(s, ms, 0) && k <= |ms|
    ensures Tiles(s, ms[k..], GapStart(ms, k))
  {
    if k > 0 {
      TilesSuffix(s, ms, k - 1);
      var rest := ms[k - 1..];
      assert rest[0] == ms[k - 1] && rest[1..] == ms[k..];
    }
  }

  /** The text between match `k - 1` and match `k`; for `k == |ms|`, the text after the last match. */
  function Gap(s: string, ms: seq<WordMatch>, k: nat): string
    requires Tiles(s, ms, 0) && k <= |ms|
  {
    TilesSuffix(s, ms, k);
    if k < |ms| then
      assert ms[k..][0] == ms[k];
      s[GapStart(ms, k)..ms[k].index]
    else s[GapStart(ms, k)..]
  }

  /** The segments of match `k`'s word: rebuilt when it has an IPA word and is not numeric, as it is otherwise. */
  function WordOutput(word: string, ipaWords: seq<string>, k: nat): seq<Segment> {
    if k < |ipaWords| && !IsNumericToken(word) then WordSegments(word, ipaWords[k]) else [Segment(word, false)]
  }

  /** The gap before match `k` as a plain segment, then the segments of its word. */
  function Piece(s: string, ms: seq<WordMatch>, ipaWords: seq<string>, k: nat): seq<Segment>
    requires Tiles(s, ms, 0) && k < |ms|
  {
    [Segment(Gap(s, ms, k), false)] + WordOutput(ms[k].word, ipaWords, k)
  }

  /** The pieces one after the other. */
  function Flatten(pieces: seq<seq<Segment>>): seq<Segment> {
    if pieces == [] then [] else pieces[0] + Flatten(pieces[1..])
  }

  /** One piece per match, in the order of the matches. */
  function Pieces(s: string, ms: seq<WordMatch>, ipaWords: seq<string>): (ps: seq<seq<Segment>>)
    requires Tiles(s, ms, 0)
    ensures |ps| == |ms|
  {
    seq(|ms|, k requires 0 <= k < |ms| => Piece(s, ms, ipaWords, k))
  }

  /**
   * The layout of a line that has words and IPA words: for each match in turn the text
   * before it verbatim and its word's segments, then the text after the last match.
   */
  lemma {:induction false} SingleLineLayout(originalText: string, ipaText: string)
    requires WordMatches(originalText) != [] && Tokenize(ipaText) != []
    ensures var ms := WordMatches(originalText);
      SingleLineSegments(originalText, ipaText)
        == Flatten(Pieces(originalText, ms, Tokenize(ipaText))) + [Segment(Gap(originalText, ms, |ms|), false)]
  {
    var ms := WordMatches(originalText);
    AssembleLayout(originalText, ms, Tokenize(ipaText), 0);
    assert ms[0..] == ms;
    assert Pieces(originalText, ms, Tokenize(ipaText))[0..] == Pieces(originalText, ms, Tokenize(ipaText));
  }

  lemma {:induction false} AssembleLayout(s: string, ms: seq<WordMatch>, ipaWords: seq<string>, j: nat)
    requires Tiles(s, ms, 0) && j <= |ms|
    ensures Tiles(s, ms[j..], GapStart(ms, j))
    ensures Assemble(s, ms[j..], ipaWords, GapStart(ms, j), j)
         == Flatten(Pieces(s, ms, ipaWords)[j..]) + [Segment(Gap(s, ms, |ms|), false)]
    decreases |ms| - j
  {
    TilesSuffix(s, ms, j);
    var ps := Pieces(s, ms, ipaWords);
    if j == |ms| {
      assert ms[j..] == [] && ps[j..] == [];
    } else {
      AssembleLayout(s, ms, ipaWords, j + 1);
      LayoutStep(s, ms, ipaWords, j);
      FlattenFrom(ps, j);
      assert ps[j] == Piece(s, ms, ipaWords, j);
      Glue(Assemble(s, ms[j..], ipaWords, GapStart(ms, j), j), ps[j],
           Assemble(s, ms[j + 1..], ipaWords, GapStart(ms, j + 1), j + 1),
           Flatten(ps[j + 1..]), Flatten(ps[j..]), [Segment(Gap(s, ms, |ms|), false)]);
    }
  }

  lemma Glue<T>(whole: seq<T>, first: seq<T>, rest: seq<T>, restPieces: seq<T>, pieces: seq<T>, tail: seq<T>)
    requires whole == first + rest && rest == restPieces + tail && pieces == first + restPieces
    ensures whole == pieces + tail
  {
  }

  /** Flattening from piece `j` on is piece `j` followed by the flattening from `j + 1`. */
  lemma FlattenFrom(pieces: seq<seq<Segment>>, j: nat)
    requires j < |pieces|
    ensures Flatten(pieces[j..]) == pieces[j] + Flatten(pieces[j + 1..])
  {
    assert pieces[j..][0] == pieces[j] && pieces[j..][1..] == pieces[j + 1..];
  }

  /** One match of the layout: the builder's step from match `j` is piece `j` followed by the step from `j + 1`. */
  lemma {:induction false} LayoutStep(s: string, ms: seq<WordMatch>, ipaWords: seq<string>, j: nat)
    requires Tiles(s, ms, 0) && j < |ms|
    requires Tiles(s, ms[j..], GapStart(ms, j)) && Tiles(s, ms[j + 1..], GapStart(ms, j + 1))
    ensures Assemble(s, ms[j..], ipaWords, GapStart(ms, j), j)
         == Piece(s, ms, ipaWords, j) + Assemble(s, ms[j + 1..], ipaWords, GapStart(ms, j + 1), j + 1)
  {
    var rest := ms[j..];
    assert rest[0] == ms[j] && rest[1..] == ms[j + 1..];
    AssembleStep(s, rest, ipaWords, GapStart(ms, j), j);
    assert Gap(s, ms, j) == s[GapStart(ms, j)..ms[j].index];
    var w := ms[j].word;
    assert (if j < |ipaWords| then WordSegments(w, ipaWords[j]) else [Segment(w, false)]) == WordOutput(w, ipaWords, j);
  }

  /** A line without letters and digits comes back as it is, with nothing in italics. */
  lemma {:induction false} LetterFreeLine(originalText: string, ipaText: string)
    requires NoWordChar(originalText)
    ensures SingleLineSegments(originalText, ipaText) == [Segment(originalText, false)]
  {
    NoMatchIffNoWordChar(originalText);
  }

  // ---------------------------------------------------------------------------
  // Several lines

  /** The plain line feed segment after line `k`, none after the last line. */
  function Separator(originalLines: seq<string>, k: nat): seq<Segment> {
    if k < |originalLines| - 1 then [Segment("\n", false)] else []
  }

  /**
   * The segments of lines `k..` of an aligned pair of line lists: each line's segments,
   * followed by a plain line feed segment except after the last line.
   */
  function LinesFrom(originalLines: seq<string>, ipaLines: seq<string>, k: nat): seq<Segment>
    requires |originalLines| == |ipaLines| && k <= |originalLines|
    decreases |originalLines| - k
  {
    if k == |originalLines| then []
    else
      SingleLineSegments(originalLines[k], ipaLines[k])
      + Separator(originalLines, k)
      + LinesFrom(originalLines, ipaLines, k + 1)
  }

  /** Line by line when either text has a line feed and both have as many lines; one line otherwise. */
  predicate LineByLine(originalText: string, ipaText: string) {
    ('\n' in originalText || '\n' in ipaText) && |SplitLines(originalText)| == |SplitLines(ipaText)|
  }

  /** What `buildSimplifiedOutputSegments` returns. */
  function OutputSegments(originalText: string, ipaText: string): seq<Segment> {
    if LineByLine(originalText, ipaText) then LinesFrom(SplitLines(originalText), SplitLines(ipaText), 0)
    else SingleLineSegments(originalText, ipaText)
  }

  /** One iteration of the line loop keeps its invariant. */
  lemma {:induction false} LinesStep(originalLines: seq<string>, ipaLines: seq<string>, k: nat,
                                     before: seq<Segment>, lineSegs: seq<Segment>)
    requires |originalLines| == |ipaLines| && k < |originalLines|
    requires before + LinesFrom(originalLines, ipaLines, k) == LinesFrom(originalLines, ipaLines, 0)
    requires lineSegs == SingleLineSegments(originalLines[k], ipaLines[k])
    ensures before + lineSegs + Separator(originalLines, k) + LinesFrom(originalLines, ipaLines, k + 1)
         == LinesFrom(originalLines, ipaLines, 0)
  {
    var rest := LinesFrom(originalLines, ipaLines, k + 1);
    assert LinesFrom(originalLines, ipaLines, k) == lineSegs + Separator(originalLines, k) + rest;
    AppendAssoc(before, lineSegs, Separator(originalLines, k), rest);
  }

  /** The line loop of `buildSimplifiedOutputSegments`, over two aligned line lists. */
  method BuildLineSegments(originalLines: seq<string>, ipaLines: seq<string>) returns (lineSegments: seq<Segment>)
    requires |originalLines| == |ipaLines|
    ensures lineSegments == LinesFrom(originalLines, ipaLines, 0)
  {
    lineSegments := [];
    for index := 0 to |originalLines|
      invariant lineSegments + LinesFrom(originalLines, ipaLines, index) == LinesFrom(originalLines, ipaLines, 0)
    {
      ghost var before := lineSegments;
      var lineSegs := BuildSimplifiedOutputSegmentsSingleLine(originalLines[index], ipaLines[index]);
      LinesStep(originalLines, ipaLines, index, before, lineSegs);
      lineSegments := lineSegments + lineSegs;
      if index < |originalLines| - 1 {
        lineSegments := lineSegments + [Segment("\n", false)];
      }
      assert lineSegments == before + lineSegs + Separator(originalLines, index);
    }
    assert LinesFrom(originalLines, ipaLines, |originalLines|) == [];
  }

  /** `buildSimplifiedOutputSegments`. */
  method BuildSimplifiedOutputSegments(originalText: string, ipaText: string) returns (segs: seq<Segment>)
    ensures segs == OutputSegments(originalText, ipaText)
  {
    if '\n' in originalText || '\n' in ipaText {
      var originalLines := SplitLines(originalText);
      var ipaLines := SplitLines(ipaText);
      if |originalLines| == |ipaLines| {
        segs := BuildLineSegments(originalLines, ipaLines);
        return;
      }
    }
    segs := BuildSimplifiedOutputSegmentsSingleLine(originalText, ipaText);
  }

  /** `buildSimplifiedOutput`: the segment texts, concatenated. */
  function BuildSimplifiedOutput(originalText: string, ipaText: string): string {
    PlainText(OutputSegments(originalText, ipaText))
  }

  /** `buildSimplifiedOutputHtml`: the rendered segments, concatenated. */
  function BuildSimplifiedOutputHtml(originalText: string, ipaText: string): string {
    HtmlText(OutputSegments(originalText, ipaText))
  }

  /** The plain texts of lines `k..`, one per line. */
  function LineTexts(originalLines: seq<string>, ipaLines: seq<string>, k: nat): (ts: seq<string>)
    requires |originalLines| == |ipaLines| && k <= |originalLines|
    ensures |ts| == |originalLines| - k
    decreases |originalLines| - k
  {
    if k == |originalLines| then []
    else [PlainText(SingleLineSegments(originalLines[k], ipaLines[k]))] + LineTexts(originalLines, ipaLines, k + 1)
  }

  /** Line by line, the output text is the lines' own outputs joined by line feeds. */
  lemma {:induction false} LinesJoinedByNewlines(originalLines: seq<string>, ipaLines: seq<string>, k: nat)
    requires |originalLines| == |ipaLines| && k < |originalLines|
    ensures PlainText(LinesFrom(originalLines, ipaLines, k)) == JoinWith("\n", LineTexts(originalLines, ipaLines, k))
    ensures (forall j :: k <= j < |originalLines| ==> NoItalic(SingleLineSegments(originalLines[j], ipaLines[j])))
      ==> NoItalic(LinesFrom(originalLines, ipaLines, k))
    decreases |originalLines| - k
  {
    var line := SingleLineSegments(originalLines[k], ipaLines[k]);
    if k == |originalLines| - 1 {
      assert LinesFrom(originalLines, ipaLines, k) == line + [] + [];
      assert line + [] + [] == line;
    } else {
      LinesJoinedByNewlines(originalLines, ipaLines, k + 1);
      var nl := [Segment("\n", false)];
      var rest := LinesFrom(originalLines, ipaLines, k + 1);
      assert LinesFrom(originalLines, ipaLines, k) == line + nl + rest;
      var ts := LineTexts(originalLines, ipaLines, k);
      assert ts == [PlainText(line)] + LineTexts(originalLines, ipaLines, k + 1);
      JoinedLine(line, rest, ts);
    }
  }

  /** A line, a line feed and the rest: the text is the line's text joined to the rest's by a line feed. */
  lemma JoinedLine(line: seq<Segment>, rest: seq<Segment>, ts: seq<string>)
    requires |ts| >= 2 && ts[0] == PlainText(line) && PlainText(rest) == JoinWith("\n", ts[1..])
    ensures PlainText(line + [Segment("\n", false)] + rest) == JoinWith("\n", ts)
    ensures NoItalic(line) && NoItalic(rest) ==> NoItalic(line + [Segment("\n", false)] + rest)
  {
    var nl := [Segment("\n", false)];
    PlainTextAppend(line + nl, rest);
    PlainTextAppend(line, nl);
    assert PlainText(nl) == "\n";
    JoinCons("\n", ts[0], ts[1..]);
    assert [ts[0]] + ts[1..] == ts;
  }

  /**
   * Text without letters and digits (and without carriage returns, which the line
   * split drops) comes back as it is from the plain builder, and escaped from the HTML
   * builder, whatever the IPA.
   */
  lemma {:induction false} LetterFreeTextUnchanged(originalText: string, ipaText: string)
    requires NoWordChar(originalText) && '\r' !in originalText
    ensures BuildSimplifiedOutput(originalText, ipaText) == originalText
    ensures BuildSimplifiedOutputHtml(originalText, ipaText) == EscapeHtml(originalText)
  {
    var segs := OutputSegments(originalText, ipaText);
    if LineByLine(originalText, ipaText) {
      var ols := SplitLines(originalText);
      var ils := SplitLines(ipaText);
      forall j | 0 <= j < |ols|
        ensures SingleLineSegments(ols[j], ils[j]) == [Segment(ols[j], false)]
      {
        assert NoWordChar(ols[j]) by {
          forall i | 0 <= i < |ols[j]| ensures !IsWordChar(ols[j][i]) {
            SplitLinesChars(originalText, j, ols[j][i]);
          }
        }
        LetterFreeLine(ols[j], ils[j]);
      }
      LinesJoinedByNewlines(ols, ils, 0);
      assert LineTexts(ols, ils, 0) == ols by {
        LineTextsOfUnchanged(ols, ils, 0);
      }
      SplitLinesRoundTrip(originalText);
    } else {
      LetterFreeLine(originalText, ipaText);
      assert PlainText(segs) == originalText;
    }
    HtmlOfPlainSegments(segs);
  }

  lemma {:induction false} LineTextsOfUnchanged(ols: seq<string>, ils: seq<string>, k: nat)
    requires |ols| == |ils| && k <= |ols|
    requires forall j :: 0 <= j < |ols| ==> SingleLineSegments(ols[j], ils[j]) == [Segment(ols[j], false)]
    ensures LineTexts(ols, ils, k) == ols[k..]
    decreases |ols| - k
  {
    if k < |ols| {
      LineTextsOfUnchanged(ols, ils, k + 1);
      assert PlainText([Segment(ols[k], false)]) == ols[k];
      SliceCons(ols, k);
    }
  }

  /**
   * An IPA text of one line without words leaves every word of the original as it is:
   * the plain builder returns the original, the HTML builder returns it escaped.
   */
  lemma NoIpaWordsUnchanged(originalText: string, ipaText: string)
    requires '\n' !in ipaText && Tokenize(ipaText) == []
    ensures BuildSimplifiedOutput(originalText, ipaText) == originalText
    ensures BuildSimplifiedOutputHtml(originalText, ipaText) == EscapeHtml(originalText)
  {
    assert !LineByLine(originalText, ipaText);
    SingleLineKeepsText(originalText, ipaText);
    HtmlOfPlainSegments(OutputSegments(originalText, ipaText));
  }

  /** An empty original gives an empty output from both builders, whatever the IPA. */
  lemma {:induction false} EmptyInputGivesEmptyOutput(ipaText: string)
    ensures BuildSimplifiedOutput("", ipaText) == ""
    ensures BuildSimplifiedOutputHtml("", ipaText) == ""
  {
    LetterFreeTextUnchanged("", ipaText);
  }
}
