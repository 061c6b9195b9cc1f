/**
 * The lexical classifier behind raddoppiamento fonosintattico: the constant word
 * tables, the two normalisations applied to orthographic words, and the
 * cogeminant test with its fixed priority order (exclusion set, falling
 * diphthongs, inclusion tables, oxytone pattern).
 */
module Lexicon {
  import opened Text

  // Cogeminant monosyllables, by grammatical category.
  const Verbs: set<string> :=
    {"è", "fu", "ho", "ha", "vo", "va", "do", "dà", "da", "fo", "fa", "fé", "so", "sa", "sto", "sta", "stiè", "può", "dì"}
  const Conjunctions: set<string> := {"che", "ché", "e", "ma", "né", "o", "se"}
  const Pronouns: set<string> := {"che", "chi", "ciò", "sé", "tu", "me", "te"}
  const Prepositions: set<string> := {"a", "da", "su", "tra", "fra", "de", "ne"}
  const Adverbs: set<string> :=
    {"su", "sù", "giù", "qui", "qua", "lì", "là", "sì", "no", "già", "più", "ve", "mo"}
  const Nouns: set<string> := {"blu", "co", "dì", "gru", "gnu", "pro", "re", "sci", "tè", "tre"}
  const Truncations: set<string> := {"fé", "fra'", "pre'", "piè"}
  const Letters: set<string> :=
    {"a", "bi", "ci", "di", "e", "gi", "i", "o", "pi", "qu", "cu", "ti", "u", "vu", "vi", "be", "ce", "de",
     "ge", "pe", "te", "ve", "ca", "mi", "chi", "ni", "csi", "pi"}
  const MusicalNotes: set<string> := {"do", "re", "mi", "fa", "la", "si"}
  const OtherCogeminant: set<string> := {"come", "dove", "qualche", "sopra"}

  /** The union of every inclusion table. */
  const AllCogeminant: set<string> :=
    Verbs + Conjunctions + Pronouns + Prepositions + Adverbs + Nouns + Truncations + Letters
    + MusicalNotes + OtherCogeminant

  /** Articles and clitic pronouns: never cogeminant. */
  const NonCogeminant: set<string> := {"il", "lo", "la", "i", "gli", "le", "mi", "ti", "si", "ci", "vi", "li", "ne"}

  /** Monosyllables with a falling diphthong that do not trigger gemination. */
  const FallingDiphthongs: set<string> := {"poi", "mai", "sei"}

  /** Words that geminate their own onset after a vowel-final word. */
  const Pregeminant: set<string> := {"dio", "dèi", "dea", "dee"}

  /** The final accented vowels that mark an oxytone. */
  const AccentedVowels: set<char> := {'à', 'è', 'é', 'ì', 'ò', 'ó', 'ù'}

  /** The vowels, plain or accented, in both cases, that end a word for the pregeminant rule. */
  const FinalVowels: set<char> :=
    {'a', 'e', 'i', 'o', 'u', 'à', 'è', 'é', 'ì', 'ò', 'ó', 'ù',
     'A', 'E', 'I', 'O', 'U', 'À', 'È', 'É', 'Ì', 'Ò', 'Ó', 'Ù'}

  /** Punctuation `cleanWord` deletes: . , ; : ! ? ' " « » „ */
  const CleanPunctuation: set<char> := {'.', ',', ';', ':', '!', '?', '\'', '"', '«', '»', '„'}

  /** Punctuation `isCogeminant` deletes before its lookups: . , ; : ! ? ' " */
  const CogeminantPunctuation: set<char> := {'.', ',', ';', ':', '!', '?', '\'', '"'}

  /** `cleanWord`: lower-case, then delete the punctuation marks. */
  function CleanWord(word: string): (r: string)
    ensures |r| <= |word|
    ensures forall c :: c in r ==> c !in CleanPunctuation && Lower(c) == c
  {
    Remove(LowerStr(word), CleanPunctuation)
  }

  /** `cleanWord` works piece by piece: the characters it keeps stay, lower-cased, in their order. */
  lemma {:induction false} CleanWordAppend(a: string, b: string)
    ensures CleanWord(a + b) == CleanWord(a) + CleanWord(b)
  {
    assert LowerStr(a + b) == LowerStr(a) + LowerStr(b);
    RemoveAppend(LowerStr(a), LowerStr(b), CleanPunctuation);
  }

  /** One character comes out lower-cased, unless its lower case is one of the punctuation marks. */
  lemma {:induction false} CleanWordChar(c: char)
    ensures CleanWord([c]) == if Lower(c) in CleanPunctuation then "" else [Lower(c)]
  {
    assert LowerStr([c]) == [Lower(c)];
    RemoveChar(Lower(c), CleanPunctuation);
  }

  /** The normalisation at the top of `isCogeminant`. */
  function Normalize(word: string): (r: string)
    ensures |r| <= |word|
    ensures forall i :: 0 <= i < |r| ==> r[i] !in CogeminantPunctuation
  {
    Remove(LowerStr(word), CogeminantPunctuation)
  }

  /** `isOxytone`: the word ends in one of à è é ì ò ó ù. */
  predicate IsOxytone(word: string) {
    |word| > 0 && word[|word| - 1] in AccentedVowels
  }

  /**
   * On a cleaned word the oxytone test looks at the last character that survives the
   * cleaning: trailing punctuation is skipped, and a final upper-case accented vowel
   * counts once lower-cased. The empty word is not an oxytone.
   */
  lemma {:induction false} OxytoneOfCleaned(a: string, c: char)
    ensures !IsOxytone(CleanWord(""))
    ensures IsOxytone(CleanWord(a + [c]))
      == if Lower(c) in CleanPunctuation then IsOxytone(CleanWord(a)) else Lower(c) in AccentedVowels
  {
    CleanWordAppend(a, [c]);
    CleanWordChar(c);
    if Lower(c) in CleanPunctuation {
      assert CleanWord(a + [c]) == CleanWord(a) + "";
    }
  }

  /** An oxytone ends in a vowel, so it is also a word the pregeminant test accepts. */
  lemma {:induction false} OxytoneEndsInVowel(w: string)
    requires IsOxytone(w)
    ensures EndsInVowel(w)
  {
    assert w[|w| - 1] in AccentedVowels;
  }

  /** The test `/[aeiouàèéìòóù]$/i` the engine applies to the previous cleaned word. */
  predicate EndsInVowel(word: string) {
    |word| > 0 && word[|word| - 1] in FinalVowels
  }

  /** `isCogeminant`: does this word trigger raddoppiamento on the next one? */
  predicate IsCogeminant(word: string) {
    var normalized := Normalize(word);
    if normalized in NonCogeminant then false
    else if normalized in FallingDiphthongs then false
    else if normalized in AllCogeminant then true
    else if IsOxytone(normalized) then true
    else false
  }

  /** A word that is already lower-case and free of the punctuation is left alone by both normalisations. */
  lemma {:induction false} NormalFixpoint(w: string)
    requires forall c :: c in w ==> Lower(c) == c && c !in CleanPunctuation
    ensures Normalize(w) == w && CleanWord(w) == w
  {
    assert LowerStr(w) == w;
  }

  /** The engine passes cleaned words to `isCogeminant`, whose own normalisation then changes nothing. */
  lemma {:induction false} CleanedWordIsNormal(w: string)
    ensures Normalize(CleanWord(w)) == CleanWord(w)
  {
    NormalFixpoint(CleanWord(w));
  }

  /**
   * Articles, clitics and the falling-diphthong words never trigger gemination, even
   * when an inclusion table lists them too.
   */
  lemma {:induction false} ExclusionBeatsInclusion(w: string)
    requires CleanWord(w) in NonCogeminant + FallingDiphthongs
    ensures !IsCogeminant(CleanWord(w))
  {
    CleanedWordIsNormal(w);
  }

  /**
   * Outside the exclusion set the falling diphthongs give false, the inclusion
   * tables give true, and otherwise the result is the oxytone pattern.
   */
  lemma {:induction false} CogeminantOutsideExclusion(w: string)
    requires CleanWord(w) !in NonCogeminant
    ensures CleanWord(w) in FallingDiphthongs ==> !IsCogeminant(CleanWord(w))
    ensures CleanWord(w) !in FallingDiphthongs && CleanWord(w) in AllCogeminant ==> IsCogeminant(CleanWord(w))
    ensures CleanWord(w) !in FallingDiphthongs && CleanWord(w) !in AllCogeminant ==>
      (IsCogeminant(CleanWord(w)) <==> |CleanWord(w)| > 0 && CleanWord(w)[|CleanWord(w)| - 1] in AccentedVowels)
  {
    CleanedWordIsNormal(w);
  }

  /**
   * The truncation entries written with an apostrophe can never be looked up:
   * both normalisations delete apostrophes.
   */
  lemma {:induction false} ApostropheEntriesUnreachable(w: string)
    ensures Normalize(w) != "fra'" && Normalize(w) != "pre'"
    ensures CleanWord(w) != "fra'" && CleanWord(w) != "pre'"
  {
    var n, m := Normalize(w), CleanWord(w);
    if |n| == 4 { assert n[3] != '\''; }
    if |m| == 4 { assert m[3] != '\''; }
  }
}
