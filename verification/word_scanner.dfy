/**
 * The word matcher of the simplified output: the pattern `[\p{L}\p{N}]+(?:[’'][\p{L}\p{N}]+)*`
 * with the `g` and `u` flags, run with `matchAll`, written as a cursor scanner. A word is a run of letters and
 * digits, extended across an apostrophe (straight or typographic) only when another
 * letter or digit follows it.
 */
module WordScanner {
  import opened Text

  /** `[\p{L}\p{N}]`. */
  predicate IsWordChar(c: char) {
    IsLetter(c) || IsNumber(c)
  }

  /** `[’']`. */
  predicate IsJoiner(c: char) {
    c == '\'' || c == '\U{2019}'
  }

  /** One match: where it starts in the text and the matched characters. */
  datatype WordMatch = WordMatch(index: nat, word: string)

  function End(m: WordMatch): nat {
    m.index + |m.word|
  }

  /** Words the pattern can match: letters and digits, each joiner between two of them. */
  predicate IsWord(w: string) {
    && w != []
    && IsWordChar(w[0])
    && IsWordChar(w[|w| - 1])
    && forall k :: 0 <= k < |w| ==>
         IsWordChar(w[k]) || (IsJoiner(w[k]) && 0 < k < |w| - 1 && IsWordChar(w[k + 1]))
  }

  predicate NoWordChar(s: string) {
    forall k :: 0 <= k < |s| ==> !IsWordChar(s[k])
  }

  /** End of the run of letters and digits starting at `i`. */
  function RunEnd(s: string, i: nat): (r: nat)
    requires i <= |s|
    ensures i <= r <= |s|
    ensures forall k :: i <= k < r ==> IsWordChar(s[k])
    ensures r < |s| ==> !IsWordChar(s[r])
    decreases |s| - i
  {
    if i < |s| && IsWordChar(s[i]) then RunEnd(s, i + 1) else i
  }

  /** The pattern can go on at `e`: a joiner followed by a letter or digit. */
  predicate Continues(s: string, e: nat) {
    e + 1 < |s| && IsJoiner(s[e]) && IsWordChar(s[e + 1])
  }

  /**
   * End of the greedy match that starts at a letter or digit: each `[’'][\p{L}\p{N}]+`
   * repetition is taken while one is there. The match is a word and cannot be extended.
   */
  function WordEnd(s: string, i: nat): (r: nat)
    requires i < |s| && IsWordChar(s[i])
    ensures i < r <= |s|
    ensures IsWord(s[i..r])
    ensures r < |s| ==> !IsWordChar(s[r]) && !Continues(s, r)
    decreases |s| - i
  {
    var e := RunEnd(s, i);
    if Continues(s, e) then
      var r := WordEnd(s, e + 1);
      WordJoin(s, i, e, r);
      r
    else
      assert IsWord(s[i..e]) by {
        forall k | 0 <= k < e - i ensures IsWordChar(s[i..e][k]) { assert s[i..e][k] == s[i + k]; }
      }
      e
  }

  /** A run of word characters, a joiner and a word form a word. */
  lemma {:induction false} WordJoin(s: string, i: nat, e: nat, r: nat)
    requires i < e && e + 1 < r <= |s|
    requires forall k :: i <= k < e ==> IsWordChar(s[k])
    requires IsJoiner(s[e])
    requires IsWord(s[e + 1..r])
    ensures IsWord(s[i..r])
  {
    var w := s[i..r];
    var tail := s[e + 1..r];
    assert IsWordChar(tail[0]);
    forall k | 0 <= k < |w|
      ensures IsWordChar(w[k]) || (IsJoiner(w[k]) && 0 < k < |w| - 1 && IsWordChar(w[k + 1]))
    {
      assert w[k] == s[i + k];
      if i + k < e {
      } else if i + k == e {
        assert w[k + 1] == tail[0];
      } else {
        var t := i + k - (e + 1);
        assert w[k] == tail[t];
        if !IsWordChar(tail[t]) {
          assert w[k + 1] == tail[t + 1];
        }
      }
    }
    assert w[|w| - 1] == tail[|tail| - 1];
  }

  /** The matches lie in the text, in order and without overlap, from position `from` on. */
  predicate Tiles(s: string, ms: seq<WordMatch>, from: nat) {
    if ms == [] then from <= |s|
    else
      && from <= ms[0].index
      && End(ms[0]) <= |s|
      && s[ms[0].index..End(ms[0])] == ms[0].word
      && Tiles(s, ms[1..], End(ms[0]))
  }

  /** The stretches between the matches, and after the last one, hold no letter or digit. */
  predicate GapsHaveNoWordChar(s: string, ms: seq<WordMatch>, from: nat)
    requires Tiles(s, ms, from)
  {
    if ms == [] then NoWordChar(s[from..])
    else NoWordChar(s[from..ms[0].index]) && GapsHaveNoWordChar(s, ms[1..], End(ms[0]))
  }

  /** Every match is a word the pattern accepts. */
  predicate AllWords(ms: seq<WordMatch>) {
    forall k :: 0 <= k < |ms| ==> IsWord(ms[k].word)
  }

  /**
   * Every match is greedy: the character after it is neither a letter or digit nor a
   * joiner followed by one.
   */
  predicate AllMaximal(s: string, ms: seq<WordMatch>) {
    forall k :: 0 <= k < |ms| && End(ms[k]) < |s| ==> !IsWordChar(s[End(ms[k])]) && !Continues(s, End(ms[k]))
  }

  /** `matchAll` from the cursor `pos`: skip what cannot start a word, take greedy matches. */
  function ScanFrom(s: string, pos: nat): (ms: seq<WordMatch>)
    requires pos <= |s|
    ensures Tiles(s, ms, pos)
    ensures GapsHaveNoWordChar(s, ms, pos)
    ensures AllWords(ms)
    ensures AllMaximal(s, ms)
    decreases |s| - pos
  {
    if pos == |s| then []
    else if IsWordChar(s[pos]) then
      var e := WordEnd(s, pos);
      var rest := ScanFrom(s, e);
      ScanWordCase(s, pos, e, rest);
      [WordMatch(pos, s[pos..e])] + rest
    else
      var ms := ScanFrom(s, pos + 1);
      ScanSkipCase(s, pos, ms);
      ms
  }

  /** A word match in front of the matches that follow it keeps the scan's guarantees. */
  lemma ScanWordCase(s: string, pos: nat, e: nat, rest: seq<WordMatch>)
    requires pos < e <= |s| && IsWord(s[pos..e])
    requires e < |s| ==> !IsWordChar(s[e]) && !Continues(s, e)
    requires Tiles(s, rest, e) && GapsHaveNoWordChar(s, rest, e) && AllWords(rest) && AllMaximal(s, rest)
    ensures Tiles(s, [WordMatch(pos, s[pos..e])] + rest, pos)
    ensures GapsHaveNoWordChar(s, [WordMatch(pos, s[pos..e])] + rest, pos)
    ensures AllWords([WordMatch(pos, s[pos..e])] + rest)
    ensures AllMaximal(s, [WordMatch(pos, s[pos..e])] + rest)
  {
    var ms := [WordMatch(pos, s[pos..e])] + rest;
    assert ms[1..] == rest;
    assert s[pos..pos] == [];
  }

  /** Skipping a character that is neither a letter nor a digit keeps the scan's guarantees. */
  lemma ScanSkipCase(s: string, pos: nat, ms: seq<WordMatch>)
    requires pos < |s| && !IsWordChar(s[pos])
    requires Tiles(s, ms, pos + 1) && GapsHaveNoWordChar(s, ms, pos + 1)
    ensures Tiles(s, ms, pos)
    ensures GapsHaveNoWordChar(s, ms, pos)
  {
    if ms != [] {
      assert s[pos..ms[0].index] == [s[pos]] + s[pos + 1..ms[0].index];
    } else {
      assert s[pos..] == [s[pos]] + s[pos + 1..];
    }
  }

  /** `[...text.matchAll(WORD_REGEX)]`. */
  function WordMatches(s: string): (ms: seq<WordMatch>)
    ensures Tiles(s, ms, 0)
    ensures GapsHaveNoWordChar(s, ms, 0)
    ensures AllWords(ms)
    ensures AllMaximal(s, ms)
  {
    ScanFrom(s, 0)
  }

  /** Gaps and matched words, put back together, give the text from `from` on. */
  function Rebuild(s: string, ms: seq<WordMatch>, from: nat): string
    requires Tiles(s, ms, from)
  {
    if ms == [] then s[from..]
    else s[from..ms[0].index] + ms[0].word + Rebuild(s, ms[1..], End(ms[0]))
  }

  /** Cutting the text at the matches loses nothing. */
  lemma {:induction false} RebuildIsText(s: string, ms: seq<WordMatch>, from: nat)
    requires Tiles(s, ms, from)
    ensures Rebuild(s, ms, from) == s[from..]
    decreases |ms|
  {
    if ms != [] {
      RebuildIsText(s, ms[1..], End(ms[0]));
      assert s[from..] == s[from..ms[0].index] + s[ms[0].index..End(ms[0])] + s[End(ms[0])..];
    }
  }

  /** A text has no word match exactly when it holds no letter and no digit. */
  lemma {:induction false} NoMatchIffNoWordChar(s: string)
    ensures WordMatches(s) == [] <==> NoWordChar(s)
  {
    if NoWordChar(s) {
      NoWordCharScansEmpty(s, 0);
    }
  }

  lemma {:induction false} NoWordCharScansEmpty(s: string, pos: nat)
    requires pos <= |s|
    requires forall k :: pos <= k < |s| ==> !IsWordChar(s[k])
    ensures ScanFrom(s, pos) == []
    decreases |s| - pos
  {
    if pos < |s| {
      NoWordCharScansEmpty(s, pos + 1);
    }
  }

  /** An apostrophe between two letters joins them: `l'anima` is one match. */
  lemma ApostropheJoins()
    ensures WordMatches("l'anima") == [WordMatch(0, "l'anima")]
  {
    var s := "l'anima";
    assert RunEnd(s, 0) == 1;
    assert Continues(s, 1);
    assert RunEnd(s, 2) == 7;
    assert WordEnd(s, 0) == 7;
    assert s[0..7] == s;
    assert ScanFrom(s, 0) == [WordMatch(0, s)] + ScanFrom(s, 7);
  }

  /** An apostrophe that no letter follows is left out of the match: `po' di` gives `po` and `di`. */
  lemma TrailingApostropheDropped()
    ensures WordMatches("po' di") == [WordMatch(0, "po"), WordMatch(4, "di")]
  {
    var t := "po' di";
    assert RunEnd(t, 0) == 2;
    assert !Continues(t, 2);
    assert WordEnd(t, 0) == 2;
    assert ScanFrom(t, 2) == ScanFrom(t, 3) == ScanFrom(t, 4);
    assert RunEnd(t, 4) == 6;
    assert WordEnd(t, 4) == 6;
    assert ScanFrom(t, 4) == [WordMatch(4, t[4..6])] + ScanFrom(t, 6);
    assert t[4..6] == "di" && t[0..2] == "po";
    assert ScanFrom(t, 0) == [WordMatch(0, t[0..2])] + ScanFrom(t, 2);
  }
}
