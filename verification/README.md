# Italian IPA post-processing and simplified output, in Dafny

This project models the two text transforms at the core of the Italian IPA app.

**Raddoppiamento fonosintattico post-processor** (`src/core/postprocessor.ts`). The original Italian text and its IPA transcription are each split into words.
- If the word counts differ, the IPA is returned unchanged.
- Otherwise each IPA word after the first is looked at together with the word before it. When one of four triggers holds, its first post-stress consonant is doubled. The triggers, in source order:
  1. `ave` before `maria`;
  2. `spirito` before `santo`;
  3. a cogeminant previous word;
  4. a pregeminant word (`dio`, `dèi`, `dea`, `dee`) after a word that ends in a vowel.
- A word is cogeminant by this test, in order:
  1. the exclusion table (articles and clitics) gives false;
  2. the falling-diphthong words give false;
  3. the union of the inclusion tables gives true;
  4. otherwise, a final accented vowel (an oxytone) gives true.

**Simplified hybrid output** (`src/core/simplified-output.ts`):
- A scanner finds words: runs of letters and digits, joined across `'` or `’` only when another letter or digit follows.
- The words are paired by position with the whitespace-separated IPA words. Each word is then rebuilt letter by letter:
  - `e` and `o` take the next `e`/`ɛ` or `o`/`ɔ` of the IPA word;
  - `s` and `z` take the next token of a sibilant stream, in which `t͡s` and `d͡z` both give `z`;
  - a spelling-checked gemination segment may be put in front.
- The result is a list of segments, each with a text and an italic flag. It is rendered as plain text, or as HTML where every segment is escaped and the italic ones are wrapped in `<span class="ipa-emphasis">`.
- With line feeds and as many lines on both sides, the work is done line by line.

The model follows the code as written, quirks included:
- `getFirstConsonant` tries the single-consonant class before the affricates. Since `t` and `d` are in that class, `ˈt͡ʃeːna` becomes `ˈtt͡ʃeːna` (`Postprocessor.AffricateOnsetDoublesOnlyTheStop`). The project's own test file expects the whole affricate to be doubled.
- The exported name is spelled `applyRaddoppianmentoFonosintattico`.
- The set of non-geminable consonants is empty, so `canGeminate` holds for every non-empty unit.
- Original words are filtered for empty pieces; IPA words are not.
- `getGeminatedConsonant` accepts any first character followed by `ː`, so a long vowel counts as geminated (`SimplifiedWord.LongVowelIsGeminated`).
- An upper-case `E` or `O` is replaced by a lower-case IPA vowel (`SimplifiedWord.CaseOfReplacements`).
- On the line-by-line path a carriage return before a line feed is dropped, so the original `.\r\n.` with the IPA `a\nb` gives `.\n.` (`Text.SplitLines`). Text without letters and digits is thus returned unchanged only when it has no such carriage return, and `SimplifiedOutput.LetterFreeTextUnchanged` and `Text.SplitLinesRoundTrip` exclude `\r`.
- The character class of `cleanWord` (postprocessor.ts:223) holds `. , ; : ! ? ' " « » „`, with the straight `"` written three times; the curly quotes `“` and `”` are not in it and are kept (`Lexicon.CleanPunctuation`).

Each loop of the source that builds up a result is a method proved equal to a specification function, and the properties are proved about those functions:
- `ApplyRaddoppianmentoFonosintattico` (against `GeminatedIpa`);
- `ExtractSZTokens` (against `SZTokens`);
- `ReplaceLettersWithIpa` (against `LetterSegments`);
- the single-line builder and the line loop (against `SingleLineSegments` and `LinesFrom`), and `BuildSimplifiedOutputSegments` (against `OutputSegments`).

Modules: `Text` (character classes, case maps, whitespace and line splits), `Ipa`, `Lexicon`, `Postprocessor`, `WordScanner`, `Segments`, `SimplifiedWord`, `SimplifiedOutput`.

## Model

| member | source | states |
|---|---|---|
| Text.LowerStr | src/core/postprocessor.ts:223 | `toLowerCase` maps each character on its own, keeps the length, and its result is fixed by a second lower-casing |
| Text.Remove | src/core/postprocessor.ts:223 | a global replace with '' of a character class: the result holds no character of the class, only characters of the input, and is the input when nothing matches |
| Text.RemoveAppend | src/core/postprocessor.ts:223 | the replace works piece by piece: removing from `a + b` is removing from `a`, then from `b`, so the kept characters stay in their order |
| Text.RemoveChar | src/core/postprocessor.ts:223 | one character is dropped exactly when it is in the class, and kept otherwise |
| Text.SplitWs | src/core/postprocessor.ts:239 | `split(/\s+/)`: at least one piece, no piece holds whitespace, only the first and last piece can be empty, and the first is non-empty when the text does not start with whitespace |
| Text.Tokenize | src/core/postprocessor.ts:214-217 | `tokenize`: every token is non-empty and free of whitespace |
| Text.JoinSplitWs | src/core/postprocessor.ts:239 | the pieces of `split(/\s+/)` joined by single spaces are the text with each maximal whitespace run replaced by one space (`CollapseWs`, defined run by run) |
| Text.TokenizeRuns | src/core/postprocessor.ts:214-217 | the tokens joined by single spaces are the text with each whitespace run collapsed to one space, minus the space left by a run at the start or at the end: the tokens are the text's whitespace-separated runs, in order, without the empty edge pieces |
| Text.NonEmptyJoin | src/core/postprocessor.ts:216 | dropping the empty pieces of a split removes exactly the space that a leading and a trailing empty piece add to the joined text |
| Text.SplitJoinRoundTrip | src/core/postprocessor.ts:310 | splitting on whitespace gives back any well-formed word list joined by single spaces |
| Text.SplitWsSingle | src/core/postprocessor.ts:239 | a text splits into one piece exactly when it holds no whitespace, and that piece is the text |
| Text.SplitLines | src/core/simplified-output.ts:76 | `split(/\r?\n/)`: at least one line, a text without a line feed is its own single line, and a text with one gives two lines or more |
| Text.SplitLinesNoNewline | src/core/simplified-output.ts:76 | no line holds a line feed |
| Text.SplitLinesChars | src/core/simplified-output.ts:76 | every character of every line is a character of the text |
| Text.SplitLinesRoundTrip | src/core/simplified-output.ts:76 | without carriage returns, joining the lines with line feeds gives back the text |
| Ipa.StressRunLength | src/core/postprocessor.ts:183-187 | the leading `[ˈˌ]+` run: every character before it is a stress mark and the one after it is not |
| Ipa.StripStress | src/core/postprocessor.ts:143 | removing the leading stress run: the word is the run followed by the result, which does not start with a stress mark |
| Lexicon.CleanWord | src/core/postprocessor.ts:222-224 | `cleanWord`: no character of the result is in the deleted class or changes when lower-cased |
| Lexicon.CleanWordAppend | src/core/postprocessor.ts:222-224 | `cleanWord` works piece by piece: cleaning `a + b` is cleaning `a`, then `b`, so the kept characters stay in their order |
| Lexicon.CleanWordChar | src/core/postprocessor.ts:222-224 | one character comes out lower-cased, or not at all when its lower case is in the deleted class |
| Lexicon.OxytoneOfCleaned | src/core/postprocessor.ts:105-108 | on a cleaned word, `isOxytone` holds exactly when the last character that survives cleaning lower-cases to à è é ì ò ó ù: trailing punctuation is skipped, and the empty word is not oxytone |
| Lexicon.OxytoneEndsInVowel | src/core/postprocessor.ts:105-108 | every oxytone also ends in a vowel by the engine's pregeminant test |
| Lexicon.CleanedWordIsNormal | src/core/postprocessor.ts:114 | the normalisation inside `isCogeminant` changes nothing on a cleaned word |
| Lexicon.ExclusionBeatsInclusion | src/core/postprocessor.ts:113-123 | a cleaned word in the exclusion set or among the falling diphthongs is never cogeminant, even when an inclusion table lists it (`ne`, `mi`, `ci`) |
| Lexicon.CogeminantOutsideExclusion | src/core/postprocessor.ts:113-136 | outside the exclusion set: `poi`/`mai`/`sei` give false, the inclusion union gives true, and otherwise the result is true exactly when the word ends in à è é ì ò ó ù |
| Lexicon.ApostropheEntriesUnreachable | src/core/postprocessor.ts:37 | the truncation entries `fra'` and `pre'` can never be looked up, because both normalisations delete apostrophes |
| Postprocessor.AffricatePrefix | src/core/postprocessor.ts:152-155 | the affricate match: a listed affricate that starts the text, or none when none does |
| Postprocessor.FirstConsonant | src/core/postprocessor.ts:141-158 | `getFirstConsonant` finds a unit exactly when the first post-stress character is in the consonant class, and the unit is that one character |
| Postprocessor.GeminateConsonant | src/core/postprocessor.ts:163-176 | the unit is doubled, unless it is already a plain doubled pair; a unit with a tie bar, or shorter than two, is always doubled |
| Postprocessor.ApplyGeminationToIpaWord | src/core/postprocessor.ts:181-197 | keeps the stress run, inserts one more copy of the unit right after it when the rest starts with the unit, and otherwise returns the word unchanged |
| Postprocessor.CanGeminate | src/core/postprocessor.ts:202-209 | with the empty exclusion set, a unit can geminate exactly when it is non-empty |
| Postprocessor.GeminateOnset | src/core/postprocessor.ts:262-267 | each trigger branch adds one copy of a consonant onset, and leaves a word with any other onset unchanged |
| Postprocessor.ProcessWordAt | src/core/postprocessor.ts:251-307 | one loop iteration, with the four triggers tried in source order, gives the specified processed word |
| Postprocessor.ApplyRaddoppianmentoFonosintattico | src/core/postprocessor.ts:233-311 | returns the IPA unchanged when the word counts differ, and otherwise equals the specification `GeminatedIpa` |
| Postprocessor.PostProcessItalianIpa | src/core/postprocessor.ts:320-334 | post-processing is raddoppiamento and nothing else |
| Postprocessor.ProcessedWordShape | src/core/postprocessor.ts:251-308 | each processed word is its IPA word, or that word with one extra copy of its first post-stress consonant; it stays free of whitespace and never gets shorter |
| Postprocessor.AlignedOutputWords | src/core/postprocessor.ts:249-310 | on the aligned path, the output splits back into exactly the processed words: as many as the original has words, the first unchanged, each unchanged or with one extra onset copy |
| Postprocessor.SingleWordUnchanged | src/core/postprocessor.ts:257 | a text of at most one word gives back the IPA unchanged |
| Postprocessor.GeminationDecision | src/core/postprocessor.ts:257-307 | word j gains an onset copy exactly when j > 0, a trigger holds and the onset is a consonant. So a vowel onset never changes, and the two idioms and the pregeminant words always geminate a consonant onset |
| Postprocessor.AffricateOnsetDoublesOnlyTheStop | src/core/postprocessor.ts:146-155 | an affricate onset gains only its stop: `ˈt͡ʃeːna` becomes `ˈtt͡ʃeːna` |
| WordScanner.RunEnd | src/core/simplified-output.ts:1 | the `[\p{L}\p{N}]+` run: letters and digits up to a character that is neither |
| WordScanner.WordEnd | src/core/simplified-output.ts:1 | the greedy match from a letter or digit is a word, and cannot be extended by another character or by another joiner-and-run |
| WordScanner.ScanFrom | src/core/simplified-output.ts:1 | `matchAll` from a cursor: the matches are words, lie in the text in order without overlap, no letter or digit is left between them, and each match is greedy: the character after it is neither a letter or digit nor a joiner followed by one |
| WordScanner.WordMatches | src/core/simplified-output.ts:40 | all word matches of a text, with the guarantees of `ScanFrom`, greediness included |
| WordScanner.RebuildIsText | src/core/simplified-output.ts:40 | the gaps and the matched words, put back together, give the text |
| WordScanner.NoMatchIffNoWordChar | src/core/simplified-output.ts:40-43 | a text has no word match exactly when it holds no letter and no digit |
| WordScanner.ApostropheJoins | src/core/simplified-output.ts:1 | `l'anima` is one word: an apostrophe between letters joins them |
| WordScanner.TrailingApostropheDropped | src/core/simplified-output.ts:1 | `po' di` gives `po` and `di`: an apostrophe that no letter follows is left out of the match |
| Segments.ReplaceChar | src/core/simplified-output.ts:288 | a global one-character replace: a text without the character is unchanged, and the character is gone unless the replacement holds it |
| Segments.EscapeHtmlNoMarkup | src/core/simplified-output.ts:286-293 | the escaped text holds no `<`, `>`, `"` or `'` |
| Segments.EscapeHtmlPerChar | src/core/simplified-output.ts:286-293 | the chained replacements equal escaping each character on its own, so `&` is never escaped twice |
| Segments.UnescapeEscapeHtml | src/core/simplified-output.ts:286-293 | decoding the five entities gives back the escaped text |
| Segments.RenderSegment | src/core/simplified-output.ts:278-284 | a plain segment renders without any `<`; a segment renders starting with the emphasis span exactly when it is italic |
| Segments.ParseRenderSegment | src/core/simplified-output.ts:278-284 | the rendered HTML determines the segment: its text and its italic flag |
| Segments.HtmlOfPlainSegments | src/core/simplified-output.ts:12-16 | when no segment is italic, the HTML is the escaped plain text |
| SimplifiedWord.ETokens | src/core/simplified-output.ts:89 | the e stream holds only `e` and `ɛ` |
| SimplifiedWord.OTokens | src/core/simplified-output.ts:90 | the o stream holds only `o` and `ɔ` |
| SimplifiedWord.SelectAppend | src/core/simplified-output.ts:89-90 | a global match of a character class works piece by piece: the matches in `a + b` are those in `a`, then those in `b` |
| SimplifiedWord.SelectOne | src/core/simplified-output.ts:89-90 | a single character is matched exactly when it is in the class |
| SimplifiedWord.VowelStreams | src/core/simplified-output.ts:89-90 | the e stream is every `e` and `ɛ` of the IPA word and the o stream every `o` and `ɔ`, each in the order of the word: the stream of `a + b` is that of `a` followed by that of `b`, and one character gives itself when it is such a vowel and nothing otherwise |
| SimplifiedWord.SZFrom | src/core/simplified-output.ts:231-268 | the sibilant stream from a position holds only `s` and `z`, and is no longer than the rest of the word |
| SimplifiedWord.ExtractSZTokens | src/core/simplified-output.ts:226-271 | the cursor loop yields exactly the specified sibilant stream |
| SimplifiedWord.PlainSibilants | src/core/simplified-output.ts:254-265 | without tie bars and length marks, the stream is the word's own `s` and `z` in order |
| SimplifiedWord.AffricatesGiveZ | src/core/simplified-output.ts:234-248 | `t͡s` and `d͡z` each give `z` |
| SimplifiedWord.LongAffricateGivesZZ | src/core/simplified-output.ts:234-248 | `t͡sː` gives `zz` |
| SimplifiedWord.PlainSGivesS | src/core/simplified-output.ts:234-248 | a plain `s` gives `s` |
| SimplifiedWord.ApplyCase | src/core/simplified-output.ts:273-276 | the token keeps its length and is either unchanged or upper-cased |
| SimplifiedWord.ApplyCaseOfLetter | src/core/simplified-output.ts:273-276 | an upper-case ASCII template upper-cases the token; a lower-case one leaves it alone |
| SimplifiedWord.LetterSegments | src/core/simplified-output.ts:96-120 | one segment per character of the word |
| SimplifiedWord.LetterSegmentsAt | src/core/simplified-output.ts:96-120 | the k-th e (o, s/z) of the word, in either case, gets the k-th token of its stream, in italics; once the stream runs out the letter stays, not italic |
| SimplifiedWord.OtherLettersKept | src/core/simplified-output.ts:119 | every character other than e, o, s, z in either case is kept, not italic |
| SimplifiedWord.CaseOfReplacements | src/core/simplified-output.ts:98-116 | an upper-case `E` becomes a lower-case `e` or `ɛ`, an upper-case `O` a lower-case `o` or `ɔ`, while an upper-case `S`/`Z` becomes `S` or `Z` |
| SimplifiedWord.ReplaceLettersWithIpa | src/core/simplified-output.ts:88-121 | the counter-driven map equals the stream-consuming specification `LetterSegments` |
| SimplifiedWord.GeminatedConsonantShape | src/core/simplified-output.ts:198-224 | a result starts the post-stress word and is doubled there or followed by `ː`, and is an affricate or one character. A first character followed by `ː` is always returned, and so is a doubled class consonant |
| SimplifiedWord.GeminatedConsonantCases | src/core/simplified-output.ts:198-224 | a doubled or long affricate is always returned; there is no result exactly when no affricate is doubled or long, no `ː` follows the first character, and that character is not a doubled class consonant (a doubled character outside the class gives none) |
| SimplifiedWord.LongVowelIsGeminated | src/core/simplified-output.ts:211-214 | `ˈaːmo` gives `a`: a long vowel counts as geminated |
| SimplifiedWord.IsGeminationCompatible | src/core/simplified-output.ts:142-196 | a vowel-initial word is always compatible |
| SimplifiedWord.CompatibleIffSpelled | src/core/simplified-output.ts:142-196 | the switch agrees, both ways, with a table of the shortest spellings per unit. The longer alternatives (`sci`, `ci`, `ce`, `gi`, `ge`) add nothing |
| SimplifiedWord.SpellingMatchesIffSpelled | src/core/simplified-output.ts:150-194 | on a lower-cased word, the switch accepts exactly when the unit is unlisted or the word starts with one of the unit's shortest spellings |
| SimplifiedWord.GeminationOverlay | src/core/simplified-output.ts:123-140 | an added segment is `g + g` in italics, for a unit `g` (an affricate or one character) that the post-stress IPA word starts with doubled or followed by `ː`, and the word starts with a vowel or with one of the spellings of `g`; it precedes all letter segments of a vowel-initial word and replaces the first otherwise. Without such a unit, or when the spelling rejects it, the segments come back unchanged |
| SimplifiedWord.IsNumericToken | src/core/simplified-output.ts:78 | a numeric token holds no letter |
| SimplifiedWord.SimplifyWord | src/core/simplified-output.ts:80-86 | `simplifyWord` equals the specification `WordSegments` |
| SimplifiedWord.WordSegmentsShape | src/core/simplified-output.ts:80-140 | a non-numeric word gives one segment per letter, or one more for a vowel-initial word with the overlay. With the overlay, the letter segments follow in place of the first one or after it |
| SimplifiedOutput.BuildSimplifiedOutputSegmentsSingleLine | src/core/simplified-output.ts:38-74 | the cursor loop equals the specification `SingleLineSegments` |
| SimplifiedOutput.SingleLineLayout | src/core/simplified-output.ts:38-74 | a line with words and IPA words gives, for each match in turn, the text before it verbatim as a plain segment and then its word's segments (rebuilt when it has an IPA word and is not numeric, plain otherwise), and finally the text after the last match as a plain segment |
| SimplifiedOutput.AssembleKeepsText | src/core/simplified-output.ts:54-72 | gaps are emitted verbatim, and numeric words and words past the last IPA word come out unchanged: the segments spell the text and none is italic |
| SimplifiedOutput.SingleLineKeepsText | src/core/simplified-output.ts:38-74 | a line whose words are all numeric or past the IPA words (no IPA words at all, say) comes back unchanged and not italic |
| SimplifiedOutput.LetterFreeLine | src/core/simplified-output.ts:42-44 | a line without letters and digits gives one plain segment holding the line |
| SimplifiedOutput.BuildLineSegments | src/core/simplified-output.ts:22-31 | the line loop equals the specification `LinesFrom`: each line's segments, with a plain line feed segment between lines |
| SimplifiedOutput.BuildSimplifiedOutputSegments | src/core/simplified-output.ts:18-36 | the per-line loop equals the specification `OutputSegments` |
| SimplifiedOutput.LinesJoinedByNewlines | src/core/simplified-output.ts:24-31 | line by line, the plain text is the per-line texts joined by line feeds, and when no line has an italic segment neither has the whole output |
| SimplifiedOutput.LetterFreeTextUnchanged | src/core/simplified-output.ts:8-16 | text without letters, digits and carriage returns comes back as it is in plain text, and escaped in HTML, whatever the IPA |
| SimplifiedOutput.NoIpaWordsUnchanged | src/core/simplified-output.ts:8-16 | with an IPA text of one line and no words, every word of the original is left as it is: the plain builder returns the original and the HTML builder returns it escaped |
| SimplifiedOutput.EmptyInputGivesEmptyOutput | src/core/simplified-output.ts:8-16 | an empty original gives `""` from both builders |

## Left out

- `console.warn` diagnostics (postprocessor.ts:244, simplified-output.ts:47) are a side channel; only return values are modelled.
- The eSpeak-ng wrapper (`src/core/espeak.ts`), the UI (`src/main.ts`) and the build scripts are foreign calls, DOM code and tooling, and are not part of this model.
- `\p{L}` and `\p{N}` are concrete approximations: `Text.IsLetter` covers ASCII, Latin-1, Latin Extended and IPA letters; `Text.IsNumber` covers ASCII digits and the Latin-1 superscripts and fractions. The full Unicode tables are not modelled.
- `Text.Lower` and `Text.Upper` map ASCII and Latin-1 only. Locale-sensitive and multi-character mappings such as `İ` or `ß` are not modelled. The regex `i` flag is modelled with the same maps.
- Strings are sequences of code points. The source indexes UTF-16 code units (`match.index`, `slice`, `ipaWord[i]`), which agree with code points only for text in the Basic Multilingual Plane.
- SimplifiedWord.ExtractSZTokens: the source's inner `for … of` over `t͡s` and `d͡z` is one disjunction. Both push the same token and have the same length, so the behaviour is the same.
- SimplifiedWord.GeminatedConsonant: the early-return `for … of` search over the affricates in `getGeminatedConsonant` (simplified-output.ts:202-209) is an if-chain in the function, not a loop. The affricates are tried in the same order and the same unit is returned.
- Each sibilant, e and o token is one character (`string` of tokens) rather than an array of one-character strings.
- The source's own test file expects affricate onsets to be doubled whole (`t͡ʃt͡ʃ`). The model follows the code, which doubles only the stop.
