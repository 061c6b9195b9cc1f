/**
 * Raddoppiamento fonosintattico on an IPA transcription: the original text and the
 * IPA text are split into words, and each IPA word whose predecessor triggers
 * gemination gets its first post-stress consonant doubled.
 */
module Postprocessor {
  import opened Text
  import opened Ipa
  import opened Lexicon

  /** The class `getFirstConsonant` tries first: p b k t d ɡ f v s z ʃ ʒ m n ɲ ŋ l ʎ r ʝ ɟ ç β ð ɣ χ ʁ ħ ʕ ʔ. */
  const ConsonantClass: set<char> :=
    {'p', 'b', 'k', 't', 'd', '\U{0261}', 'f', 'v', 's', 'z', '\U{0283}', '\U{0292}', 'm', 'n',
     '\U{0272}', '\U{014B}', 'l', '\U{028E}', 'r', '\U{029D}', '\U{025F}', '\U{00E7}', '\U{03B2}',
     '\U{00F0}', '\U{0263}', '\U{03C7}', '\U{0281}', '\U{0127}', '\U{0295}', '\U{0294}'}

  /** Consonants that may not geminate: the source leaves this set empty. */
  const NonGeminableConsonants: set<char> := {}

  /** The first affricate that starts `s`, tried in source order. */
  function AffricatePrefix(s: string): (r: Option<string>)
    ensures r.Some? ==> r.value in Affricates && r.value <= s
    ensures r.None? ==> forall a :: a in Affricates ==> !(a <= s)
  {
    if Affricates[0] <= s then Some(Affricates[0])
    else if Affricates[1] <= s then Some(Affricates[1])
    else if Affricates[2] <= s then Some(Affricates[2])
    else if Affricates[3] <= s then Some(Affricates[3])
    else None
  }

  /**
   * `getFirstConsonant`: after the stress marks, the single-consonant class is tried
   * before the affricates. Since `t` and `d` belong to that class, the result is always
   * one character and the affricate branch never produces a value.
   */
  function FirstConsonant(ipaWord: string): (r: Option<string>)
    ensures r.Some? <==> StripStress(ipaWord) != "" && StripStress(ipaWord)[0] in ConsonantClass
    ensures r.Some? ==> r.value == [StripStress(ipaWord)[0]]
  {
    var cleaned := StripStress(ipaWord);
    if cleaned != "" && cleaned[0] in ConsonantClass then Some([cleaned[0]])
    else AffricatePrefix(cleaned)
  }

  /** `geminateConsonant`: doubles the unit unless it is already a plain doubled pair. */
  function GeminateConsonant(consonant: string): (r: string)
    ensures r == consonant + consonant
      || (r == consonant && TieBar !in consonant && |consonant| >= 2 && consonant[0] == consonant[1])
    ensures TieBar in consonant || |consonant| < 2 ==> r == consonant + consonant
  {
    if TieBar in consonant then consonant + consonant
    else if |consonant| >= 2 && consonant[0] == consonant[1] then consonant
    else consonant + consonant
  }

  /**
   * `applyGeminationToIpaWord`: keeps the leading stress run, and when the rest starts
   * with `consonant` inserts one more copy of it right after the run; otherwise the
   * word is returned as it is.
   */
  function ApplyGeminationToIpaWord(ipaWord: string, consonant: string): (r: string)
    ensures var k := StressRunLength(ipaWord);
      && ipaWord[..k] <= r
      && (!(consonant <= StripStress(ipaWord)) ==> r == ipaWord)
      && (consonant <= StripStress(ipaWord) && (TieBar in consonant || |consonant| < 2 || consonant[0] != consonant[1]) ==>
            r == ipaWord[..k] + consonant + ipaWord[k..])
      && (TieBar !in consonant && |consonant| >= 2 && consonant[0] == consonant[1] ==> r == ipaWord)
  {
    var k := StressRunLength(ipaWord);
    var stressMarks := ipaWord[..k];
    var withoutStress := ipaWord[k..];
    assert StripStress(ipaWord) == withoutStress by {
      assert ipaWord == stressMarks + StripStress(ipaWord);
    }
    if consonant <= withoutStress then
      var tail := withoutStress[|consonant|..];
      var g := GeminateConsonant(consonant);
      SpliceAfterStress(ipaWord, k, consonant, tail, g);
      stressMarks + g + tail
    else ipaWord
  }

  /** Putting `g` (the unit or the unit twice) back between the stress run and the tail. */
  lemma SpliceAfterStress(w: string, k: nat, c: string, tail: string, g: string)
    requires k <= |w| && c <= w[k..] && tail == w[k..][|c|..]
    requires g == c || g == c + c
    ensures w[..k] <= w[..k] + g + tail
    ensures g == c ==> w[..k] + g + tail == w
    ensures g == c + c ==> w[..k] + g + tail == w[..k] + c + w[k..]
  {
    assert w[k..] == c + tail;
    assert w == w[..k] + w[k..];
  }

  /** `canGeminate`: with the empty exclusion set, every non-empty unit can geminate. */
  function CanGeminate(consonant: string): (r: bool)
    ensures r <==> consonant != ""
  {
    if consonant == "" then false else consonant[0] !in NonGeminableConsonants
  }

  /** `w` with one extra copy of its first post-stress character, which is a consonant. */
  predicate OneExtraOnset(w: string, v: string) {
    var k := StressRunLength(w);
    k < |w| && w[k] in ConsonantClass && v == w[..k] + [w[k]] + w[k..]
  }

  /**
   * What every trigger branch of the engine does to the current IPA word: find the
   * first consonant and, when it can geminate, double it.
   */
  function GeminateOnset(ipaWord: string): (r: string)
    ensures var rest := StripStress(ipaWord);
      if rest != "" && rest[0] in ConsonantClass then OneExtraOnset(ipaWord, r) else r == ipaWord
  {
    match FirstConsonant(ipaWord)
    case Some(c) => if CanGeminate(c) then ApplyGeminationToIpaWord(ipaWord, c) else ipaWord
    case None => ipaWord
  }

  /** The four trigger conditions of the engine, on cleaned words. */
  predicate TriggersGemination(cleanedPrevious: string, cleanedWord: string) {
    || (cleanedPrevious == "ave" && cleanedWord == "maria")
    || (cleanedPrevious == "spirito" && cleanedWord == "santo")
    || IsCogeminant(cleanedPrevious)
    || (cleanedWord in Pregeminant && EndsInVowel(cleanedPrevious))
  }

  /** The IPA word the engine emits at position `i` of an aligned pair of word lists. */
  function ProcessedWord(words: seq<string>, ipaWords: seq<string>, i: nat): string
    requires |words| == |ipaWords| && i < |words|
  {
    if i > 0 && TriggersGemination(CleanWord(words[i - 1]), CleanWord(words[i]))
    then GeminateOnset(ipaWords[i])
    else ipaWords[i]
  }

  /** The processed IPA words of an aligned pair of word lists. */
  function ProcessedWords(words: seq<string>, ipaWords: seq<string>): (ps: seq<string>)
    requires |words| == |ipaWords|
    ensures |ps| == |words|
  {
    seq(|words|, i requires 0 <= i < |words| => ProcessedWord(words, ipaWords, i))
  }

  /**
   * The result of the engine: the IPA text unchanged when the word counts differ,
   * otherwise the processed IPA words joined by single spaces.
   */
  function GeminatedIpa(originalText: string, ipaText: string): string {
    var words := Tokenize(originalText);
    var ipaWords := SplitWs(ipaText);
    if |words| != |ipaWords| then ipaText
    else JoinWith(" ", ProcessedWords(words, ipaWords))
  }

  /** A triggered position whose onset can geminate: the engine emits the doubled onset. */
  lemma TriggeredWord(words: seq<string>, ipaWords: seq<string>, i: nat)
    requires |words| == |ipaWords| && 0 < i < |words|
    requires TriggersGemination(CleanWord(words[i - 1]), CleanWord(words[i]))
    requires FirstConsonant(ipaWords[i]).Some? && CanGeminate(FirstConsonant(ipaWords[i]).value)
    ensures ProcessedWord(words, ipaWords, i) == ApplyGeminationToIpaWord(ipaWords[i], FirstConsonant(ipaWords[i]).value)
  {
  }

  /** The first position, an untriggered one, or one without a geminable onset: the IPA word is kept. */
  lemma UntriggeredWord(words: seq<string>, ipaWords: seq<string>, i: nat)
    requires |words| == |ipaWords| && i < |words|
    requires || i == 0
             || !TriggersGemination(CleanWord(words[i - 1]), CleanWord(words[i]))
             || FirstConsonant(ipaWords[i]).None?
             || !CanGeminate(FirstConsonant(ipaWords[i]).value)
    ensures ProcessedWord(words, ipaWords, i) == ipaWords[i]
  {
  }

  /**
   * One iteration of the engine's loop: the four triggers in source order, each
   * doubling the first consonant of the current IPA word when it can geminate.
   */
  method ProcessWordAt(words: seq<string>, ipaWords: seq<string>, i: nat) returns (processed: string)
    requires |words| == |ipaWords| && i < |words|
    ensures processed == ProcessedWord(words, ipaWords, i)
  {
    var currentWord := words[i];
    var currentIpa := ipaWords[i];
    var cleanedWord := CleanWord(currentWord);
    if i > 0 {
      var previousWord := words[i - 1];
      var cleanedPrevious := CleanWord(previousWord);
      if cleanedPrevious == "ave" && cleanedWord == "maria" {
        var firstConsonant := FirstConsonant(currentIpa);
        if firstConsonant.Some? && CanGeminate(firstConsonant.value) {
          TriggeredWord(words, ipaWords, i);
          return ApplyGeminationToIpaWord(currentIpa, firstConsonant.value);
        }
      }
      if cleanedPrevious == "spirito" && cleanedWord == "santo" {
        var firstConsonant := FirstConsonant(currentIpa);
        if firstConsonant.Some? && CanGeminate(firstConsonant.value) {
          TriggeredWord(words, ipaWords, i);
          return ApplyGeminationToIpaWord(currentIpa, firstConsonant.value);
        }
      }
      if IsCogeminant(cleanedPrevious) {
        var firstConsonant := FirstConsonant(currentIpa);
        if firstConsonant.Some? && CanGeminate(firstConsonant.value) {
          TriggeredWord(words, ipaWords, i);
          return ApplyGeminationToIpaWord(currentIpa, firstConsonant.value);
        }
      }
      if cleanedWord in Pregeminant && EndsInVowel(cleanedPrevious) {
        var firstConsonant := FirstConsonant(currentIpa);
        if firstConsonant.Some? && CanGeminate(firstConsonant.value) {
          TriggeredWord(words, ipaWords, i);
          return ApplyGeminationToIpaWord(currentIpa, firstConsonant.value);
        }
      }
    }
    UntriggeredWord(words, ipaWords, i);
    return currentIpa;
  }

  /**
   * `applyRaddoppianmentoFonosintattico` (the exported name is spelled this way):
   * the original words are the non-empty whitespace tokens, the IPA words are the
   * unfiltered whitespace split, and each position after the first is checked
   * against the four triggers in source order.
   */
  method ApplyRaddoppianmentoFonosintattico(originalText: string, ipaText: string) returns (r: string)
    ensures |Tokenize(originalText)| != |SplitWs(ipaText)| ==> r == ipaText
    ensures r == GeminatedIpa(originalText, ipaText)
  {
    var words := Tokenize(originalText);
    var ipaWords := SplitWs(ipaText);
    if |words| != |ipaWords| {
      return ipaText;
    }
    var processedIpaWords: seq<string> := [];
    for i := 0 to |words|
      invariant processedIpaWords == ProcessedWords(words, ipaWords)[..i]
    {
      var processed := ProcessWordAt(words, ipaWords, i);
      TakeOneMore(ProcessedWords(words, ipaWords), i);
      processedIpaWords := processedIpaWords + [processed];
    }
    assert processedIpaWords == ProcessedWords(words, ipaWords);
    r := JoinWith(" ", processedIpaWords);
  }

  /** `postProcessItalianIPA`: raddoppiamento is the only rule applied. */
  method PostProcessItalianIpa(originalText: string, ipaText: string) returns (r: string)
    ensures r == GeminatedIpa(originalText, ipaText)
  {
    r := ApplyRaddoppianmentoFonosintattico(originalText, ipaText);
  }

  // ---------------------------------------------------------------------------
  // Properties of the engine

  /** Each processed word is its IPA word, or that word with one extra copy of its onset consonant. */
  lemma {:induction false} ProcessedWordShape(words: seq<string>, ipaWords: seq<string>, i: nat)
    requires |words| == |ipaWords| && i < |words|
    ensures var v := ProcessedWord(words, ipaWords, i);
      v == ipaWords[i] || OneExtraOnset(ipaWords[i], v)
    ensures NoSpace(ipaWords[i]) ==> NoSpace(ProcessedWord(words, ipaWords, i))
    ensures |ProcessedWord(words, ipaWords, i)| >= |ipaWords[i]|
  {
    var w := ipaWords[i];
    var v := ProcessedWord(words, ipaWords, i);
    assert v == w || OneExtraOnset(w, v);
    ExtraOnsetKeepsNoSpace(w, v);
  }

  /** Doubling the onset adds no space and only lengthens the word. */
  lemma ExtraOnsetKeepsNoSpace(w: string, v: string)
    requires v == w || OneExtraOnset(w, v)
    ensures NoSpace(w) ==> NoSpace(v)
    ensures |v| >= |w|
  {
    if v != w && NoSpace(w) {
      var k := StressRunLength(w);
      assert v == w[..k] + [w[k]] + w[k..];
      forall j | 0 <= j < |v| ensures !IsSpace(v[j]) {
        if j < k { assert v[j] == w[j]; }
        else if j == k { assert v[j] == w[k]; }
        else { assert v[j] == w[j - 1]; }
      }
    }
  }

  /**
   * On the aligned path the output splits back into exactly the processed words:
   * as many as the original has words, the first one untouched, each one either
   * unchanged or carrying one extra copy of its first post-stress consonant.
   */
  lemma {:induction false} AlignedOutputWords(originalText: string, ipaText: string)
    requires |Tokenize(originalText)| == |SplitWs(ipaText)|
    ensures var out := SplitWs(GeminatedIpa(originalText, ipaText));
      var ipaWords := SplitWs(ipaText);
      && out == ProcessedWords(Tokenize(originalText), ipaWords)
      && |out| == |Tokenize(originalText)|
      && out[0] == ipaWords[0]
      && forall j :: 0 <= j < |out| ==> out[j] == ipaWords[j] || OneExtraOnset(ipaWords[j], out[j])
  {
    var words := Tokenize(originalText);
    var ipaWords := SplitWs(ipaText);
    var ps := ProcessedWords(words, ipaWords);
    forall j | 0 <= j < |ps|
      ensures NoSpace(ps[j]) && |ps[j]| >= |ipaWords[j]|
      ensures ps[j] == ipaWords[j] || OneExtraOnset(ipaWords[j], ps[j])
    {
      ProcessedWordShape(words, ipaWords, j);
    }
    assert WellSplit(ps);
    SplitJoinRoundTrip(ps);
  }

  /** A text of at most one word comes back unchanged: the first word is never geminated. */
  lemma {:induction false} SingleWordUnchanged(originalText: string, ipaText: string)
    requires |Tokenize(originalText)| <= 1
    ensures GeminatedIpa(originalText, ipaText) == ipaText
  {
    var ipaWords := SplitWs(ipaText);
    if |Tokenize(originalText)| == |ipaWords| {
      SplitWsSingle(ipaText);
      assert JoinWith(" ", ProcessedWords(Tokenize(originalText), ipaWords)) == ipaWords[0];
    }
  }

  /** The IPA word starts, after its stress marks, with a consonant of the single-consonant class. */
  predicate ConsonantOnset(w: string) {
    StripStress(w) != "" && StripStress(w)[0] in ConsonantClass
  }

  /**
   * On the aligned path, word `j` gains a copy of its onset exactly when `j > 0`, one of
   * the four triggers holds for the cleaned pair, and the IPA word starts with a
   * consonant after its stress marks. In particular a vowel onset is never changed, and
   * the fixed idioms and the pregeminant words geminate whatever the classifier says
   * about the previous word.
   */
  lemma {:induction false} GeminationDecision(originalText: string, ipaText: string, j: nat)
    requires |Tokenize(originalText)| == |SplitWs(ipaText)| && j < |SplitWs(ipaText)|
    ensures j < |SplitWs(GeminatedIpa(originalText, ipaText))|
    ensures var words := Tokenize(originalText);
      var w := SplitWs(ipaText)[j];
      var v := SplitWs(GeminatedIpa(originalText, ipaText))[j];
      var trigger := j > 0 && TriggersGemination(CleanWord(words[j - 1]), CleanWord(words[j]));
      && (trigger && ConsonantOnset(w) ==> OneExtraOnset(w, v))
      && (!trigger || !ConsonantOnset(w) ==> v == w)
      && (j > 0 && ConsonantOnset(w) && FixedTrigger(CleanWord(words[j - 1]), CleanWord(words[j])) ==> OneExtraOnset(w, v))
  {
    var words := Tokenize(originalText);
    var ipaWords := SplitWs(ipaText);
    AlignedOutputWords(originalText, ipaText);
    assert SplitWs(GeminatedIpa(originalText, ipaText))[j] == ProcessedWord(words, ipaWords, j);
  }

  /** The triggers that do not consult the classifier: the two idioms and the pregeminant words after a vowel. */
  predicate FixedTrigger(cleanedPrevious: string, cleanedWord: string) {
    || (cleanedPrevious == "ave" && cleanedWord == "maria")
    || (cleanedPrevious == "spirito" && cleanedWord == "santo")
    || (cleanedWord in Pregeminant && EndsInVowel(cleanedPrevious))
  }

  /**
   * Because `t` and `d` are tried as single consonants first, an affricate onset
   * gains only its stop: `ˈt͡ʃeːna` becomes `ˈtt͡ʃeːna`, never `ˈt͡ʃt͡ʃeːna`.
   */
  lemma {:induction false} AffricateOnsetDoublesOnlyTheStop(ipaWord: string, a: string)
    requires a in Affricates && a <= StripStress(ipaWord)
    ensures var k := StressRunLength(ipaWord);
      GeminateOnset(ipaWord) == ipaWord[..k] + [a[0]] + ipaWord[k..]
    ensures GeminateOnset("\U{02C8}t\U{0361}\U{0283}e\U{02D0}na") == "\U{02C8}tt\U{0361}\U{0283}e\U{02D0}na"
  {
    var e := "\U{02C8}t\U{0361}\U{0283}e\U{02D0}na";
    assert StressRunLength(e[1..]) == 0;
    assert StripStress(e) == e[1..];
    assert e[..1] + ['t'] + e[1..] == "\U{02C8}tt\U{0361}\U{0283}e\U{02D0}na";
  }
}
