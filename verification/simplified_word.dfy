/**
 * One word of the simplified output: the spelling is kept except for the letters whose
 * sound the IPA makes explicit (e/o open or closed, s/z voiced or voiceless), and a
 * geminated onset found in the IPA may be overlaid in front.
 */
module SimplifiedWord {
  import opened Text
  import opened Ipa
  import opened Segments

  const OpenE: char := '\U{025B}'  // ɛ
  const OpenO: char := '\U{0254}'  // ɔ

  // ---------------------------------------------------------------------------
  // Token streams taken from the IPA word

  /** The characters of `s` that belong to `keep`, in order. */
  function Select(s: string, keep: set<char>): (r: string)
    ensures |r| <= |s|
    ensures forall k :: 0 <= k < |r| ==> r[k] in keep
  {
    if s == [] then ""
    else if s[0] in keep then [s[0]] + Select(s[1..], keep)
    else Select(s[1..], keep)
  }

  /** Selection works piece by piece: the selected characters of `a + b` are those of `a`, then those of `b`. */
  lemma {:induction false} SelectAppend(a: string, b: string, keep: set<char>)
    ensures Select(a + b, keep) == Select(a, keep) + Select(b, keep)
    decreases |a|
  {
    if a == [] {
      assert a + b == b;
    } else {
      assert (a + b)[0] == a[0] && (a + b)[1..] == a[1..] + b;
      SelectAppend(a[1..], b, keep);
    }
  }

  /** One character is selected exactly when it belongs to the set. */
  lemma SelectOne(c: char, keep: set<char>)
    ensures Select([c], keep) == if c in keep then [c] else []
  {
    assert [c][1..] == [];
  }

  /**
   * The e and o streams are every `e`/`ɛ` and every `o`/`ɔ` of the IPA word, in order:
   * they are built piece by piece, and one character contributes itself or nothing.
   */
  lemma {:induction false} VowelStreams(a: string, b: string, c: char)
    ensures ETokens(a + b) == ETokens(a) + ETokens(b)
    ensures OTokens(a + b) == OTokens(a) + OTokens(b)
    ensures ETokens([c]) == if c == 'e' || c == OpenE then [c] else []
    ensures OTokens([c]) == if c == 'o' || c == OpenO then [c] else []
  {
    SelectAppend(a, b, {'e', OpenE});
    SelectAppend(a, b, {'o', OpenO});
    SelectOne(c, {'e', OpenE});
    SelectOne(c, {'o', OpenO});
  }

  /** `[...ipaWord.matchAll(/[eɛ]/g)].map(match => match[0])`: one token per character. */
  function ETokens(ipaWord: string): (ts: string)
    ensures forall k :: 0 <= k < |ts| ==> ts[k] == 'e' || ts[k] == OpenE
  {
    Select(ipaWord, {'e', OpenE})
  }

  /** `[...ipaWord.matchAll(/[oɔ]/g)].map(match => match[0])`. */
  function OTokens(ipaWord: string): (ts: string)
    ensures forall k :: 0 <= k < |ts| ==> ts[k] == 'o' || ts[k] == OpenO
  {
    Select(ipaWord, {'o', OpenO})
  }

  /** `ipaWord.startsWith('t͡s', index) || ipaWord.startsWith('d͡z', index)`. */
  predicate SibilantAffricateAt(ipaWord: string, index: nat)
    requires index <= |ipaWord|
  {
    Affricates[2] <= ipaWord[index..] || Affricates[3] <= ipaWord[index..]
  }

  /** `ipaWord[i] === 'ː'`, false past the end. */
  predicate LongAt(ipaWord: string, i: nat) {
    i < |ipaWord| && ipaWord[i] == LengthMark
  }

  /**
   * The sibilant tokens `extractSZTokens` collects from position `index` on, one
   * character per token: an affricate t͡s or d͡z gives `z`, a plain `s` or `z` gives
   * itself, and a length mark right after either gives a second copy.
   */
  function SZFrom(ipaWord: string, index: nat): (ts: string)
    requires index <= |ipaWord|
    ensures forall k :: 0 <= k < |ts| ==> ts[k] == 's' || ts[k] == 'z'
    ensures |ts| <= |ipaWord| - index
    decreases |ipaWord| - index
  {
    if index == |ipaWord| then ""
    else if SibilantAffricateAt(ipaWord, index) then
      var next := index + 3;
      if LongAt(ipaWord, next) then "zz" + SZFrom(ipaWord, next + 1)
      else "z" + SZFrom(ipaWord, next)
    else if ipaWord[index] == 's' || ipaWord[index] == 'z' then
      var c := ipaWord[index];
      if LongAt(ipaWord, index + 1) then [c, c] + SZFrom(ipaWord, index + 2)
      else [c] + SZFrom(ipaWord, index + 1)
    else SZFrom(ipaWord, index + 1)
  }

  function SZTokens(ipaWord: string): (ts: string)
    ensures forall k :: 0 <= k < |ts| ==> ts[k] == 's' || ts[k] == 'z'
    ensures |ts| <= |ipaWord|
  {
    SZFrom(ipaWord, 0)
  }

  /** One step of the cursor: the tokens at `index` and where the walk resumes. */
  lemma SZFromStep(ipaWord: string, index: nat)
    requires index < |ipaWord|
    ensures SibilantAffricateAt(ipaWord, index) ==> index + 3 <= |ipaWord|
    ensures SibilantAffricateAt(ipaWord, index) && LongAt(ipaWord, index + 3) ==>
      SZFrom(ipaWord, index) == "zz" + SZFrom(ipaWord, index + 4)
    ensures SibilantAffricateAt(ipaWord, index) && !LongAt(ipaWord, index + 3) ==>
      SZFrom(ipaWord, index) == "z" + SZFrom(ipaWord, index + 3)
    ensures !SibilantAffricateAt(ipaWord, index) && (ipaWord[index] == 's' || ipaWord[index] == 'z') ==>
      if LongAt(ipaWord, index + 1)
      then SZFrom(ipaWord, index) == [ipaWord[index], ipaWord[index]] + SZFrom(ipaWord, index + 2)
      else SZFrom(ipaWord, index) == [ipaWord[index]] + SZFrom(ipaWord, index + 1)
    ensures !SibilantAffricateAt(ipaWord, index) && ipaWord[index] != 's' && ipaWord[index] != 'z' ==>
      SZFrom(ipaWord, index) == SZFrom(ipaWord, index + 1)
  {
    assert |Affricates[2]| == 3 && |Affricates[3]| == 3;
  }

  /** Moving a piece from the front of the rest to the end of the collected tokens. */
  lemma Regroup(before: string, piece: string, after: string, rest: string, whole: string)
    requires before + (piece + rest) == whole
    requires after == before + piece
    ensures after + rest == whole
  {
    assert (before + piece) + rest == before + (piece + rest);
  }

  /**
   * `extractSZTokens`: a cursor walks the IPA word; the affricate test covers both
   * affricates of the source's inner loop, which push the same token and have the
   * same length.
   */
  method ExtractSZTokens(ipaWord: string) returns (tokens: string)
    ensures tokens == SZTokens(ipaWord)
  {
    tokens := "";
    var index := 0;
    while index < |ipaWord|
      invariant index <= |ipaWord|
      invariant tokens + SZFrom(ipaWord, index) == SZTokens(ipaWord)
      decreases |ipaWord| - index
    {
      SZFromStep(ipaWord, index);
      ghost var before := tokens;
      if SibilantAffricateAt(ipaWord, index) {
        var nextIndex := index + 3;
        var isLong := nextIndex < |ipaWord| && ipaWord[nextIndex] == LengthMark;
        tokens := tokens + "z";
        if isLong {
          tokens := tokens + "z";
          index := nextIndex + 1;
          Regroup(before, "zz", tokens, SZFrom(ipaWord, index), SZTokens(ipaWord));
        } else {
          index := nextIndex;
          Regroup(before, "z", tokens, SZFrom(ipaWord, index), SZTokens(ipaWord));
        }
        continue;
      }
      var ch := ipaWord[index];
      if ch == 's' || ch == 'z' {
        var isLong := index + 1 < |ipaWord| && ipaWord[index + 1] == LengthMark;
        tokens := tokens + [ch];
        if isLong {
          tokens := tokens + [ch];
          index := index + 2;
          Regroup(before, [ch, ch], tokens, SZFrom(ipaWord, index), SZTokens(ipaWord));
        } else {
          index := index + 1;
          Regroup(before, [ch], tokens, SZFrom(ipaWord, index), SZTokens(ipaWord));
        }
        continue;
      }
      index := index + 1;
    }
  }

  /** Without tie bars and length marks the sibilant stream is just the s and z of the word. */
  lemma {:induction false} PlainSibilants(ipaWord: string, index: nat)
    requires index <= |ipaWord|
    requires TieBar !in ipaWord && LengthMark !in ipaWord
    ensures SZFrom(ipaWord, index) == Select(ipaWord[index..], {'s', 'z'})
    decreases |ipaWord| - index
  {
    if index < |ipaWord| {
      assert ipaWord[index..][1..] == ipaWord[index + 1..];
      if index + 1 < |ipaWord| {
        assert ipaWord[index + 1] in ipaWord;
        assert ipaWord[index..][1] == ipaWord[index + 1];
      }
      assert Affricates[2][1] == TieBar && Affricates[3][1] == TieBar;
      assert !SibilantAffricateAt(ipaWord, index);
      PlainSibilants(ipaWord, index + 1);
    }
  }

  lemma {:induction false} NoAffricateAt(s: string, i: nat)
    requires i < |s| && s[i] != 't' && s[i] != 'd'
    ensures !SibilantAffricateAt(s, i)
  {
    assert Affricates[2][0] == 't' && Affricates[3][0] == 'd';
    assert s[i..][0] == s[i];
  }

  /** Both sibilant affricates give `z`, voiceless t͡s included. */
  lemma AffricatesGiveZ()
    ensures SZTokens("t\U{0361}s") == "z"
    ensures SZTokens("d\U{0361}z") == "z"
  {
    var a := "t\U{0361}s";
    assert SibilantAffricateAt(a, 0);
    var b := "d\U{0361}z";
    assert SibilantAffricateAt(b, 0);
  }

  /** A length mark after the affricate doubles its token. */
  lemma LongAffricateGivesZZ()
    ensures SZTokens("\U{02C8}pet\U{0361}s\U{02D0}o") == "zz"
  {
    var p := "\U{02C8}pet\U{0361}s\U{02D0}o";
    NoAffricateAt(p, 0);
    NoAffricateAt(p, 1);
    NoAffricateAt(p, 2);
    assert SibilantAffricateAt(p, 3) && LongAt(p, 6);
    NoAffricateAt(p, 7);
  }

  /** A plain s gives `s`. */
  lemma PlainSGivesS()
    ensures SZTokens("\U{02C8}kasa") == "s"
  {
    var k := "\U{02C8}kasa";
    NoAffricateAt(k, 0);
    NoAffricateAt(k, 1);
    NoAffricateAt(k, 2);
    NoAffricateAt(k, 3);
    NoAffricateAt(k, 4);
    assert !LongAt(k, 4);
  }

  // ---------------------------------------------------------------------------
  // applyCase and the letter-by-letter replacement

  /** `applyCase`: the token is upper-cased when the template is an upper-case letter. */
  function ApplyCase(token: string, template: string): (r: string)
    ensures |r| == |token|
    ensures r == token || r == UpperStr(token)
  {
    var isUpper := UpperStr(template) == template && LowerStr(template) != template;
    if isUpper then UpperStr(token) else token
  }

  /** An upper-case ASCII letter passes its case on; a lower-case one leaves the token alone. */
  lemma {:induction false} ApplyCaseOfLetter(token: string, c: char)
    ensures 'A' <= c <= 'Z' ==> ApplyCase(token, [c]) == UpperStr(token)
    ensures 'a' <= c <= 'z' ==> ApplyCase(token, [c]) == token
  {
    if 'A' <= c <= 'Z' {
      assert UpperStr([c]) == [c];
      assert LowerStr([c])[0] != c;
    } else if 'a' <= c <= 'z' {
      assert UpperStr([c])[0] != c;
    }
  }

  /**
   * The segments of `word` given the remaining token streams: an e or o (either case)
   * takes the next token of its stream, as it is; an s or z takes the next sibilant,
   * in the case of the letter; once a stream is used up its letters stay as they are.
   */
  function LetterSegments(word: string, es: string, os: string, ss: string): (segs: seq<Segment>)
    ensures |segs| == |word|
    decreases |word|
  {
    if word == [] then []
    else
      var c := word[0];
      var lower := Lower(c);
      if lower == 'e' then
        if es != [] then [Segment([es[0]], true)] + LetterSegments(word[1..], es[1..], os, ss)
        else [Segment([c], false)] + LetterSegments(word[1..], es, os, ss)
      else if lower == 'o' then
        if os != [] then [Segment([os[0]], true)] + LetterSegments(word[1..], es, os[1..], ss)
        else [Segment([c], false)] + LetterSegments(word[1..], es, os, ss)
      else if lower == 's' || lower == 'z' then
        if ss != [] then [Segment(ApplyCase([ss[0]], [c]), true)] + LetterSegments(word[1..], es, os, ss[1..])
        else [Segment([c], false)] + LetterSegments(word[1..], es, os, ss)
      else [Segment([c], false)] + LetterSegments(word[1..], es, os, ss)
  }

  /** How many characters of `s` lower-case to one of `letters`. */
  function CountLower(s: string, letters: set<char>): (n: nat)
    ensures n <= |s|
  {
    if s == [] then 0 else (if Lower(s[0]) in letters then 1 else 0) + CountLower(s[1..], letters)
  }

  lemma {:induction false} CountLowerAppend(a: string, b: string, letters: set<char>)
    ensures CountLower(a + b, letters) == CountLower(a, letters) + CountLower(b, letters)
    decreases |a|
  {
    if a == [] {
      assert a + b == b;
    } else {
      assert (a + b)[0] == a[0];
      assert (a + b)[1..] == a[1..] + b;
      CountLowerAppend(a[1..], b, letters);
    }
  }

  /** Counting one more character of the word. */
  lemma {:induction false} CountLowerStep(word: string, k: nat, letters: set<char>)
    requires k < |word|
    ensures CountLower(word[..k + 1], letters) == CountLower(word[..k], letters) + (if Lower(word[k]) in letters then 1 else 0)
  {
    assert word[..k + 1] == word[..k] + [word[k]];
    CountLowerAppend(word[..k], [word[k]], letters);
    assert [word[k]][1..] == [];
  }

  /** The segment of the letter at `j`: it takes token number "letters of its kind before it". */
  function LetterAt(word: string, j: nat, es: string, os: string, ss: string): Segment
    requires j < |word|
  {
    var c := word[j];
    var lower := Lower(c);
    if lower == 'e' then
      var n := CountLower(word[..j], {'e'});
      if n < |es| then Segment([es[n]], true) else Segment([c], false)
    else if lower == 'o' then
      var n := CountLower(word[..j], {'o'});
      if n < |os| then Segment([os[n]], true) else Segment([c], false)
    else if lower == 's' || lower == 'z' then
      var n := CountLower(word[..j], {'s', 'z'});
      if n < |ss| then Segment(ApplyCase([ss[n]], [c]), true) else Segment([c], false)
    else Segment([c], false)
  }

  /** A used-up stream stays used up: dropping one more token from an empty stream. */
  function Rest(ts: string): string {
    if ts == [] then [] else ts[1..]
  }

  lemma {:induction false} RestIndex(ts: string, n: nat)
    requires n >= 1
    ensures (n - 1 < |Rest(ts)|) == (n < |ts|)
    ensures n < |ts| ==> Rest(ts)[n - 1] == ts[n]
  {
  }

  /**
   * The streams are consumed in order: the k-th e of the word (counting from 0, either
   * case) gets the k-th e/ɛ of the IPA, and likewise for o and for s/z.
   */
  lemma {:induction false} LetterSegmentsAt(word: string, es: string, os: string, ss: string, j: nat)
    requires j < |word|
    ensures LetterSegments(word, es, os, ss)[j] == LetterAt(word, j, es, os, ss)
    decreases |word|
  {
    if j > 0 {
      var lower := Lower(word[0]);
      var es' := if lower == 'e' then Rest(es) else es;
      var os' := if lower == 'o' then Rest(os) else os;
      var ss' := if lower == 's' || lower == 'z' then Rest(ss) else ss;
      LetterSegmentsStep(word, es, os, ss, j);
      LetterSegmentsAt(word[1..], es', os', ss', j - 1);
      LetterAtShift(word, es, os, ss, j);
    }
  }

  /** Past the first character, the segments are those of the rest with the streams it used advanced. */
  lemma LetterSegmentsStep(word: string, es: string, os: string, ss: string, j: nat)
    requires 0 < j < |word|
    ensures var lower := Lower(word[0]);
      LetterSegments(word, es, os, ss)[j]
      == LetterSegments(word[1..], if lower == 'e' then Rest(es) else es, if lower == 'o' then Rest(os) else os,
                        if lower == 's' || lower == 'z' then Rest(ss) else ss)[j - 1]
  {
  }

  /** Counting from the second character: one token fewer of the first character's kind. */
  lemma {:induction false} LetterAtShift(word: string, es: string, os: string, ss: string, j: nat)
    requires 0 < j < |word|
    ensures var lower := Lower(word[0]);
      LetterAt(word[1..], j - 1, if lower == 'e' then Rest(es) else es, if lower == 'o' then Rest(os) else os,
               if lower == 's' || lower == 'z' then Rest(ss) else ss)
      == LetterAt(word, j, es, os, ss)
  {
    var c := word[0];
    var lower := Lower(c);
    assert word[..j] == [c] + word[1..][..j - 1];
    assert word[1..][j - 1] == word[j];
    CountLowerAppend([c], word[1..][..j - 1], {'e'});
    CountLowerAppend([c], word[1..][..j - 1], {'o'});
    CountLowerAppend([c], word[1..][..j - 1], {'s', 'z'});
    var d := Lower(word[j]);
    if d == 'e' && lower == 'e' {
      RestIndex(es, CountLower(word[..j], {'e'}));
    } else if d == 'o' && lower == 'o' {
      RestIndex(os, CountLower(word[..j], {'o'}));
    } else if (d == 's' || d == 'z') && (lower == 's' || lower == 'z') {
      RestIndex(ss, CountLower(word[..j], {'s', 'z'}));
    }
  }

  /** Every letter other than e, o, s and z, in either case, is kept as it is and not italic. */
  lemma {:induction false} OtherLettersKept(word: string, es: string, os: string, ss: string, j: nat)
    requires j < |word| && Lower(word[j]) !in {'e', 'o', 's', 'z'}
    ensures LetterSegments(word, es, os, ss)[j] == Segment([word[j]], false)
  {
    LetterSegmentsAt(word, es, os, ss, j);
  }

  /**
   * An upper-case E or O is replaced by its lower-case IPA vowel, with no case applied,
   * while an upper-case S or Z gets an upper-case sibilant.
   */
  lemma {:induction false} CaseOfReplacements(word: string, es: string, os: string, ss: string, j: nat)
    requires j < |word|
    requires forall k :: 0 <= k < |es| ==> es[k] == 'e' || es[k] == OpenE
    requires forall k :: 0 <= k < |os| ==> os[k] == 'o' || os[k] == OpenO
    requires forall k :: 0 <= k < |ss| ==> ss[k] == 's' || ss[k] == 'z'
    ensures var seg := LetterSegments(word, es, os, ss)[j];
      && (word[j] == 'E' && CountLower(word[..j], {'e'}) < |es| ==> seg.text == "e" || seg.text == [OpenE])
      && (word[j] == 'O' && CountLower(word[..j], {'o'}) < |os| ==> seg.text == "o" || seg.text == [OpenO])
      && (word[j] in {'S', 'Z'} && CountLower(word[..j], {'s', 'z'}) < |ss| ==> seg.text == "S" || seg.text == "Z")
  {
    LetterSegmentsAt(word, es, os, ss, j);
    if word[j] in {'S', 'Z'} {
      var n := CountLower(word[..j], {'s', 'z'});
      if n < |ss| {
        ApplyCaseOfLetter([ss[n]], word[j]);
      }
    }
  }

  /** `replaceLettersWithIpa`: one segment per character, the three stream counters advance. */
  method ReplaceLettersWithIpa(word: string, ipaWord: string) returns (segs: seq<Segment>)
    ensures segs == LetterSegments(word, ETokens(ipaWord), OTokens(ipaWord), SZTokens(ipaWord))
  {
    var eTokens := ETokens(ipaWord);
    var oTokens := OTokens(ipaWord);
    var szTokens := ExtractSZTokens(ipaWord);
    var eIndex, oIndex, szIndex := 0, 0, 0;
    segs := [];
    for k := 0 to |word|
      invariant |segs| == k
      invariant eIndex == CountLower(word[..k], {'e'})
      invariant oIndex == CountLower(word[..k], {'o'})
      invariant szIndex == CountLower(word[..k], {'s', 'z'})
      invariant forall j :: 0 <= j < k ==> segs[j] == LetterAt(word, j, eTokens, oTokens, szTokens)
    {
      var ch := word[k];
      var lower := Lower(ch);
      var seg;
      if lower == 'e' {
        seg := if eIndex < |eTokens| then Segment([eTokens[eIndex]], true) else Segment([ch], false);
        eIndex := eIndex + 1;
      } else if lower == 'o' {
        seg := if oIndex < |oTokens| then Segment([oTokens[oIndex]], true) else Segment([ch], false);
        oIndex := oIndex + 1;
      } else if lower == 's' || lower == 'z' {
        seg := if szIndex < |szTokens| then Segment(ApplyCase([szTokens[szIndex]], [ch]), true) else Segment([ch], false);
        szIndex := szIndex + 1;
      } else {
        seg := Segment([ch], false);
      }
      CountLowerStep(word, k, {'e'});
      CountLowerStep(word, k, {'o'});
      CountLowerStep(word, k, {'s', 'z'});
      assert seg == LetterAt(word, k, eTokens, oTokens, szTokens);
      segs := segs + [seg];
    }
    forall j | 0 <= j < |word|
      ensures segs[j] == LetterSegments(word, eTokens, oTokens, szTokens)[j]
    {
      LetterSegmentsAt(word, eTokens, oTokens, szTokens, j);
    }
  }

  // ---------------------------------------------------------------------------
  // The gemination overlay

  /** The class the final check of `getGeminatedConsonant` accepts: p b k t d ɡ f v s z ʃ ʒ m n ɲ ŋ l ʎ r. */
  const GeminableClass: set<char> :=
    {'p', 'b', 'k', 't', 'd', '\U{0261}', 'f', 'v', 's', 'z', '\U{0283}', '\U{0292}', 'm', 'n',
     '\U{0272}', '\U{014B}', 'l', '\U{028E}', 'r'}

  /** The unit `a` starts `s` doubled, or followed by the length mark. */
  predicate LongOrDoubled(s: string, a: string) {
    a + a <= s || (a <= s && LongAt(s, |a|))
  }

  /**
   * `getGeminatedConsonant`: after the stress marks, an affricate doubled or long; else
   * the first character when the length mark follows it (whatever it is, a vowel
   * included); else a doubled consonant of the class.
   */
  function GeminatedConsonant(ipaWord: string): Option<string> {
    var cleaned := StripStress(ipaWord);
    if LongOrDoubled(cleaned, Affricates[0]) then Some(Affricates[0])
    else if LongOrDoubled(cleaned, Affricates[1]) then Some(Affricates[1])
    else if LongOrDoubled(cleaned, Affricates[2]) then Some(Affricates[2])
    else if LongOrDoubled(cleaned, Affricates[3]) then Some(Affricates[3])
    else if |cleaned| >= 2 && cleaned[1] == LengthMark then Some([cleaned[0]])
    else if |cleaned| < 2 || cleaned[1] != cleaned[0] then None
    else if cleaned[0] !in GeminableClass then None
    else Some([cleaned[0]])
  }

  /**
   * A geminated unit starts the post-stress word and is doubled there or followed by
   * the length mark; it is an affricate or one character. A first character followed
   * by the length mark is always returned, and so is a doubled consonant of the class.
   */
  lemma GeminatedConsonantShape(ipaWord: string)
    ensures var r := GeminatedConsonant(ipaWord); var cleaned := StripStress(ipaWord);
      r.Some? ==> r.value <= cleaned && LongOrDoubled(cleaned, r.value) && (r.value in Affricates || |r.value| == 1)
    ensures var cleaned := StripStress(ipaWord);
      |cleaned| >= 2 && cleaned[1] == LengthMark ==> GeminatedConsonant(ipaWord) == Some([cleaned[0]])
    ensures var cleaned := StripStress(ipaWord);
      |cleaned| >= 2 && cleaned[0] == cleaned[1] && cleaned[0] in GeminableClass ==> GeminatedConsonant(ipaWord) == Some([cleaned[0]])
  {
    var cleaned := StripStress(ipaWord);
    if |cleaned| >= 2 && cleaned[0] == cleaned[1] {
      assert [cleaned[0]] + [cleaned[0]] == cleaned[..2];
    }
  }

  /**
   * The cases are exhaustive: a doubled or long affricate is always the answer, and
   * there is no answer exactly when no affricate is doubled or long, no length mark
   * follows the first character and that character is not a doubled consonant of the
   * class (a doubled character outside it, such as a doubled vowel, gives none).
   */
  lemma GeminatedConsonantCases(ipaWord: string)
    ensures var cleaned := StripStress(ipaWord);
      forall j :: 0 <= j < |Affricates| && LongOrDoubled(cleaned, Affricates[j]) ==> GeminatedConsonant(ipaWord) == Some(Affricates[j])
    ensures var cleaned := StripStress(ipaWord);
      GeminatedConsonant(ipaWord).None? <==>
        && (forall j :: 0 <= j < |Affricates| ==> !LongOrDoubled(cleaned, Affricates[j]))
        && !(|cleaned| >= 2 && (cleaned[1] == LengthMark || (cleaned[0] == cleaned[1] && cleaned[0] in GeminableClass)))
  {
    var cleaned := StripStress(ipaWord);
    forall i, j | 0 <= i < j < |Affricates| && LongOrDoubled(cleaned, Affricates[i])
      ensures !LongOrDoubled(cleaned, Affricates[j])
    {
      AffricatePrefixesDiffer(cleaned, i, j);
    }
  }

  /** Two different affricates cannot both start the same word. */
  lemma AffricatePrefixesDiffer(cleaned: string, i: nat, j: nat)
    requires 0 <= i < j < |Affricates|
    ensures Affricates[i] <= cleaned ==> !(Affricates[j] <= cleaned)
  {
    if Affricates[i] <= cleaned {
      assert cleaned[0] == Affricates[i][0] && cleaned[2] == Affricates[i][2];
    }
  }

  /** A long initial vowel counts as geminated: `ˈaːmo` gives `a`. */
  lemma LongVowelIsGeminated()
    ensures GeminatedConsonant("\U{02C8}a\U{02D0}mo") == Some("a")
  {
    var w := "\U{02C8}a\U{02D0}mo";
    assert StressRunLength(w[1..]) == 0;
    assert StripStress(w) == w[1..];
  }

  /** `/^[aeiouàèéìòóù]/i.test(word)`. */
  predicate StartsWithVowel(word: string) {
    word != [] && Lower(word[0]) in {'a', 'e', 'i', 'o', 'u', '\U{00E0}', '\U{00E8}', '\U{00E9}', '\U{00EC}', '\U{00F2}', '\U{00F3}', '\U{00F9}'}
  }

  /** `isGeminationCompatible`: does the spelling of the word start the way the unit is written? */
  function IsGeminationCompatible(word: string, geminated: string): (r: bool)
    ensures StartsWithVowel(word) ==> r
  {
    StartsWithVowel(word) || SpellingMatches(LowerStr(word), geminated)
  }

  /** The `switch` of `isGeminationCompatible`, on the lower-cased word. */
  predicate SpellingMatches(lower: string, geminated: string) {
    if geminated == "p" then "p" <= lower
    else if geminated == "b" then "b" <= lower
    else if geminated == "t" then "t" <= lower
    else if geminated == "d" then "d" <= lower
    else if geminated == "k" then "c" <= lower || "k" <= lower || "q" <= lower
    else if geminated == "\U{0261}" then "g" <= lower
    else if geminated == "f" then "f" <= lower
    else if geminated == "v" then "v" <= lower
    else if geminated == "s" then "s" <= lower
    else if geminated == "z" then "z" <= lower
    else if geminated == "\U{0283}" then "sc" <= lower || "sci" <= lower
    else if geminated == "\U{0292}" then "g" <= lower
    else if geminated == "m" then "m" <= lower
    else if geminated == "n" then "n" <= lower
    else if geminated == "\U{0272}" then "gn" <= lower
    else if geminated == "l" then "l" <= lower
    else if geminated == "\U{028E}" then "gl" <= lower
    else if geminated == "r" then "r" <= lower
    else if geminated == Affricates[0] then "c" <= lower || "ci" <= lower || "ce" <= lower
    else if geminated == Affricates[1] then "g" <= lower || "gi" <= lower || "ge" <= lower
    else if geminated == Affricates[2] || geminated == Affricates[3] then "z" <= lower
    else true
  }

  /**
   * The spelling each unit demands of a consonant-initial word, as the shortest
   * prefixes (the longer alternatives of the switch, such as `sci` after `sc`, add
   * nothing); `None` for units the switch does not list, which are always accepted.
   */
  function OnsetSpelling(geminated: string): Option<seq<string>> {
    if geminated == "p" then Some(["p"])
    else if geminated == "b" then Some(["b"])
    else if geminated == "t" then Some(["t"])
    else if geminated == "d" then Some(["d"])
    else if geminated == "k" then Some(["c", "k", "q"])
    else if geminated == "\U{0261}" then Some(["g"])
    else if geminated == "f" then Some(["f"])
    else if geminated == "v" then Some(["v"])
    else if geminated == "s" then Some(["s"])
    else if geminated == "z" then Some(["z"])
    else if geminated == "\U{0283}" then Some(["sc"])
    else if geminated == "\U{0292}" then Some(["g"])
    else if geminated == "m" then Some(["m"])
    else if geminated == "n" then Some(["n"])
    else if geminated == "\U{0272}" then Some(["gn"])
    else if geminated == "l" then Some(["l"])
    else if geminated == "\U{028E}" then Some(["gl"])
    else if geminated == "r" then Some(["r"])
    else if geminated == Affricates[0] then Some(["c"])
    else if geminated == Affricates[1] then Some(["g"])
    else if geminated == Affricates[2] || geminated == Affricates[3] then Some(["z"])
    else None
  }

  /**
   * The word admits the unit: it starts with a vowel, the unit has no listed spelling,
   * or the lower-cased word starts with one of the unit's spellings.
   */
  predicate Spelled(word: string, geminated: string) {
    || StartsWithVowel(word)
    || OnsetSpelling(geminated).None?
    || exists k :: 0 <= k < |OnsetSpelling(geminated).value| && OnsetSpelling(geminated).value[k] <= LowerStr(word)
  }

  /** The switch agrees with the spelling table, in both directions. */
  lemma {:induction false} CompatibleIffSpelled(word: string, geminated: string)
    ensures IsGeminationCompatible(word, geminated) <==>
      || StartsWithVowel(word)
      || OnsetSpelling(geminated).None?
      || exists k :: 0 <= k < |OnsetSpelling(geminated).value| && OnsetSpelling(geminated).value[k] <= LowerStr(word)
  {
    SpellingMatchesIffSpelled(LowerStr(word), geminated);
  }

  lemma {:induction false} SpellingMatchesIffSpelled(lower: string, geminated: string)
    ensures SpellingMatches(lower, geminated) <==>
      || OnsetSpelling(geminated).None?
      || exists k :: 0 <= k < |OnsetSpelling(geminated).value| && OnsetSpelling(geminated).value[k] <= lower
  {
    var sp := OnsetSpelling(geminated);
    if sp.Some? {
      var p := sp.value;
      assert 1 <= |p| <= 3;
      SomePrefix(p, lower);
      LongerSpellings(lower);
    }
  }

  /** One of at most three alternatives is a prefix. */
  lemma SomePrefix(p: seq<string>, lower: string)
    requires 1 <= |p| <= 3
    ensures (exists k :: 0 <= k < |p| && p[k] <= lower)
        <==> p[0] <= lower || (|p| > 1 && p[1] <= lower) || (|p| > 2 && p[2] <= lower)
  {
  }

  /** The longer alternatives of the switch start with a shorter one. */
  lemma LongerSpellings(lower: string)
    ensures "sci" <= lower ==> "sc" <= lower
    ensures "ci" <= lower || "ce" <= lower ==> "c" <= lower
    ensures "gi" <= lower || "ge" <= lower ==> "g" <= lower
  {
  }

  /**
   * `applyGeminationFromIpa`: with a geminated onset that the spelling admits, a
   * segment doubling it is put in front, in place of the first letter's segment unless
   * the word starts with a vowel.
   */
  function ApplyGeminationFromIpa(segments: seq<Segment>, word: string, ipaWord: string): seq<Segment> {
    match GeminatedConsonant(ipaWord)
    case None => segments
    case Some(geminated) =>
      if !IsGeminationCompatible(word, geminated) then segments
      else
        var gemSegment := Segment(geminated + geminated, true);
        if StartsWithVowel(word) then [gemSegment] + segments
        else [gemSegment] + (if segments == [] then [] else segments[1..])
  }

  /**
   * What the overlay promises. A segment it adds is the unit `g` written twice, in
   * italics, where `g` is an affricate or one character that the stress-free IPA word
   * starts with, doubled or followed by the length mark, and the word is spelled the
   * way `g` is written (or starts with a vowel). That segment stands in front of every
   * letter segment of a vowel-initial word and replaces the first one otherwise. Without
   * such a unit, or when the spelling rejects it, the segments come back unchanged.
   */
  lemma {:induction false} GeminationOverlay(segments: seq<Segment>, word: string, ipaWord: string)
    ensures var r := ApplyGeminationFromIpa(segments, word, ipaWord); var gem := GeminatedConsonant(ipaWord);
      var cleaned := StripStress(ipaWord);
      r != segments ==>
        && gem.Some?
        && r != [] && r[0] == Segment(gem.value + gem.value, true)
        && gem.value <= cleaned && LongOrDoubled(cleaned, gem.value)
        && (gem.value in Affricates || |gem.value| == 1)
        && Spelled(word, gem.value)
    ensures var r := ApplyGeminationFromIpa(segments, word, ipaWord); var gem := GeminatedConsonant(ipaWord);
      gem.Some? && Spelled(word, gem.value) ==>
        && r != [] && r[0] == Segment(gem.value + gem.value, true)
        && r[1..] == (if StartsWithVowel(word) || segments == [] then segments else segments[1..])
    ensures var gem := GeminatedConsonant(ipaWord);
      gem.None? || !Spelled(word, gem.value) ==> ApplyGeminationFromIpa(segments, word, ipaWord) == segments
  {
    GeminatedConsonantShape(ipaWord);
    var gem := GeminatedConsonant(ipaWord);
    if gem.Some? {
      var g := gem.value;
      CompatibleIffSpelled(word, g);
      if Spelled(word, g) {
        var rest := if StartsWithVowel(word) || segments == [] then segments else segments[1..];
        assert ApplyGeminationFromIpa(segments, word, ipaWord) == [Segment(g + g, true)] + rest;
        assert ([Segment(g + g, true)] + rest)[1..] == rest;
      }
    }
  }

  /** `isNumericToken`: `/^\p{N}+$/u`. A numeric token holds no letter. */
  predicate IsNumericToken(word: string)
    ensures IsNumericToken(word) ==> forall k :: 0 <= k < |word| ==> !IsLetter(word[k])
  {
    word != [] && forall k :: 0 <= k < |word| ==> IsNumber(word[k])
  }

  /** What `simplifyWord` returns for a word and its (non-empty) IPA word. */
  function WordSegments(word: string, ipaWord: string): seq<Segment> {
    if IsNumericToken(word) then [Segment(word, false)]
    else
      var letters := LetterSegments(word, ETokens(ipaWord), OTokens(ipaWord), SZTokens(ipaWord));
      ApplyGeminationFromIpa(letters, word, ipaWord)
  }

  /** `simplifyWord`. */
  method SimplifyWord(word: string, ipaWord: string) returns (segs: seq<Segment>)
    ensures segs == WordSegments(word, ipaWord)
  {
    if IsNumericToken(word) {
      return [Segment(word, false)];
    }
    var baseSegments := ReplaceLettersWithIpa(word, ipaWord);
    segs := ApplyGeminationFromIpa(baseSegments, word, ipaWord);
  }

  /**
   * A non-numeric word gives one segment per letter, plus one in front when a vowel-initial
   * word takes the gemination overlay; after the overlay the letter segments that
   * follow are those of the replacement.
   */
  lemma {:induction false} WordSegmentsShape(word: string, ipaWord: string)
    requires word != [] && !IsNumericToken(word)
    ensures var segs := WordSegments(word, ipaWord);
      var letters := LetterSegments(word, ETokens(ipaWord), OTokens(ipaWord), SZTokens(ipaWord));
      && (|segs| == |word| || (|segs| == |word| + 1 && StartsWithVowel(word)))
      && (segs == letters || (segs[0].italic && segs[1..] == (if StartsWithVowel(word) then letters else letters[1..])))
  {
    var letters := LetterSegments(word, ETokens(ipaWord), OTokens(ipaWord), SZTokens(ipaWord));
    GeminationOverlay(letters, word, ipaWord);
  }
}
