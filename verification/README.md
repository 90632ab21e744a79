# Prosody analysis and normalisation of the corpus scripts

A Dafny model of the pure logic in the two corpus-maintenance scripts of the lyrics
assistant:

- `scripts/import_fragments.py`. It turns a CSV of lyric fragments into stored
  fragments. The modelled parts are:
  - CSV row normalisation and tag cleaning, including the tag fallback;
  - the per-line prosody analyser: syllable count, binary stress pattern and end rhyme;
  - the fragment analysis: non-blank numbered lines and a type chosen by line count;
  - the decisions about which front-matter keys, `fragments` and `fragment_lines` rows
    and vector metadata one import produces;
  - the import loop, which counts successes and failures.
- `scripts/reanalyze_prosody.py`. It recomputes the prosody columns of every stored
  line of a rhythmic fragment. This copy of the analyser has:
  - a syllable count without a floor, plus a vowel-run fallback;
  - stress where secondary stress counts as stressed;
  - American and British end rhymes;
  - an American-to-British phone rewrite table.

  The update loop over the `fragment_lines` table is modelled as a pure map update.

The external resources the scripts consult are parameters (`Phonetics.Oracles`):
- CMUdict is `Option<CmuDict>`, where `None` means the load failed;
- `syllables.estimate` is a function that may raise (`Result<int>`), and a flag says
  whether the `syllables` package can be imported at all;
- `pronouncing` is absent (`None`) or a pair of functions, and `rhyming_part` may raise;
- the espeak phonemizer is a function that may raise.

The dictionary type encodes CMUdict's shape: every entry has a pronunciation and every
phone is non-empty.

Modules, one per concern:

| file | module | models |
|---|---|---|
| outcome.dfy | `Outcome` | `Option` and `Result` (`Raised` stands for a Python exception) |
| text.dfy | `Text` | `str.split()`, `strip()`, `split(sep)`, `join`, `lower`, `upper`, `isalpha` |
| phonetics.dfy | `Phonetics` | the oracles, stress digits, the first-syllable guess, the last word, the rhyme of a word |
| import_prosody.dfy | `ImportProsody` | the analyser of `import_fragments.py` |
| fragments.dfy | `Fragments` | `analyze_fragment_prosody` |
| normalise.dfy | `Normalise` | `parse_csv` row mapping and the tag parse and fallback |
| storage.dfy | `Storage` | front-matter, database rows, vector metadata and the import loop |
| british.dfy | `British` | the American-to-British rewrite table |
| reanalyze.dfy | `Reanalyze` | the analyser of `reanalyze_prosody.py` |
| reanalysis.dfy | `Reanalysis` | the re-analysis loop as a table update |
| versions.dfy | `Versions` | where the two analysers disagree |

Some behaviours of the scripts are easy to misread:

- In the import analyser, an empty or punctuation-only line gets 1 syllable and the
  stress pattern `"1"`. It never gets 0 syllables and an empty pattern.
- Syllable count and stress-pattern length are computed independently. Nothing makes
  them equal: a dictionary word adds one symbol per stress digit, while its syllables
  come from the estimator.
- Neither script falls back to the last three letters of an unknown word for the rhyme.
  For a word `pronouncing` does not know, the import script's rhyme and the re-analysis
  script's American rhyme are `None`. The re-analysis script's British rhyme (stored in
  both `end_rhyme_gb` and `end_rhyme`) still comes from the phonemizer whenever it answers
  with something other than the word itself.
- In the import script, an exception raised by the estimator inside
  `get_stress_pattern` is not caught. The line analysis therefore raises, and the
  fragment's import is counted as failed (`ImportProsody.StressPattern`,
  `Storage.ImportDecisions`).

## Model

Two tables are constants rather than operations: `British.Mappings` is the rewrite table of
scripts/reanalyze_prosody.py:154-168 (its facts are stated by `British.NoEarlierPrefix`,
`British.ReplacementsLackR` and `British.EveryEntryLooksUp`), and `Normalise.DefaultTags` is the
pair ['lyric', 'fragment'] of scripts/import_fragments.py:168 (stated by `Normalise.FallbackTags`).

| member | source | states |
|---|---|---|
| Text.Words | scripts/import_fragments.py:203 | `split()` yields non-empty, whitespace-free tokens made of the text's characters, and yields none exactly when the text is all whitespace |
| Text.WordsAppendSpace | scripts/import_fragments.py:203 | splitting two texts joined by any whitespace character (space, tab, no-break space, ...) gives the tokens of the first followed by the tokens of the second |
| Text.WordsOfLowerJoin | scripts/import_fragments.py:203 | lower-casing and splitting two texts joined by a space gives the tokens of each part, in order |
| Text.Lower | scripts/import_fragments.py:203 | `lower()` keeps the length, maps each character on its own and leaves no upper-case letter |
| Text.Upper | scripts/import_fragments.py:110 | `upper()` keeps the length, maps each character on its own and leaves no lower-case ASCII letter |
| Text.Letters | scripts/import_fragments.py:208 | the kept characters are letters of the token, every letter of the token is kept, a token without letters gives the empty string and an all-letter token is kept whole |
| Text.LettersAppend | scripts/import_fragments.py:208 | cleaning a concatenation cleans each part and keeps their order |
| Text.LettersOfChar | scripts/import_fragments.py:208 | a single character is kept exactly when it is a letter |
| Text.Strip | scripts/import_fragments.py:107-111 | `strip()` leaves no whitespace at either end, keeps only characters of the input, and is empty exactly for an all-whitespace input |
| Text.StripIsTrimmed | scripts/import_fragments.py:107-111 | the stripped text is a contiguous slice of the input with only whitespace before and after it |
| Text.StripPadded | scripts/import_fragments.py:107-111 | stripping a stripped text padded on both sides with whitespace gives back exactly that text |
| Text.TrimStartAfterSpace | scripts/import_fragments.py:107 | leading whitespace does not change what is left after trimming the front |
| Text.TrimEndBeforeSpace | scripts/import_fragments.py:107 | trailing whitespace does not change what is left after trimming the back |
| Text.StripStripped | scripts/import_fragments.py:301 | stripping an already stripped line changes nothing |
| Text.LowerKeepsStripped | scripts/import_fragments.py:156 | lower-casing a stripped tag leaves it stripped |
| Text.SplitOn | scripts/import_fragments.py:301 | `split('\n')` yields at least one piece and no piece contains the separator |
| Text.JoinSplitOn | scripts/import_fragments.py:301 | joining the pieces of a split with the separator restores the text |
| Text.SplitOnJoin | scripts/import_fragments.py:301 | splitting a join of separator-free pieces gives back the pieces |
| Text.WordsOfToken | scripts/import_fragments.py:203 | a whitespace-free token splits into itself alone |
| Text.SplitOnWithoutSep | scripts/import_fragments.py:301 | a text without the separator splits into itself alone |
| Text.SplitOnAfterPiece | scripts/import_fragments.py:301 | a separator-free piece followed by the separator splits off as the first piece |
| Text.SplitOnAtSep | scripts/import_fragments.py:301 | splitting a text at a separator gives the pieces of the text before it followed by the pieces of the text after it |
| Phonetics.StressDigits | scripts/import_fragments.py:237-239 | the result is digits, never more than the phones; when every phone ends in a digit it is exactly those final digits in order, and when none does it is empty |
| Phonetics.StressDigitsAppend | scripts/import_fragments.py:237-239 | the digits of a concatenated pronunciation are the digits of each part, in order |
| Phonetics.StressDigitsOfPhone | scripts/import_fragments.py:237-239 | one phone contributes its final character exactly when that is a digit |
| Phonetics.Zeros | scripts/import_fragments.py:249 | `"0" * k` has `max(0, k)` zeros and is empty for k <= 0 |
| Phonetics.FirstSyllableStress | scripts/import_fragments.py:246-252 | the unknown-word guess has length max(1, syll), starts with '1' and continues with zeros only |
| Phonetics.LastWord | scripts/import_fragments.py:265-270 | there is no last word exactly for all-whitespace text; otherwise it is lower-case letters only |
| Phonetics.LastWordIgnoresPrefix | scripts/import_fragments.py:265-270 | words in front of the last word do not change it |
| Phonetics.LastWordOfLine | scripts/import_fragments.py:265-270 | for a line ending in a token, the last word is that token lower-cased and cut down to its letters |
| Phonetics.RhymeOfWord | scripts/import_fragments.py:273-285 | a rhyme exists exactly when the library is present, the word has a pronunciation and `rhyming_part` does not raise; it is the rhyming part, or the whole phone string when that part is empty |
| ImportProsody.VowelLetters | scripts/import_fragments.py:215 | the number of `aeiouy` letters, zero exactly when the word has none |
| ImportProsody.VowelLettersAppend | scripts/import_fragments.py:215 | the vowel count of a concatenation is the sum of the parts' counts |
| ImportProsody.VowelLettersOfChar | scripts/import_fragments.py:215 | a single character counts 1 exactly when it is one of `aeiouy` |
| ImportProsody.WordSyllables | scripts/import_fragments.py:206-215 | an empty cleaned token adds 0; a non-empty one adds the estimate, or exactly max(1, its vowel-letter count) when the estimate raises |
| ImportProsody.TotalSyllables | scripts/import_fragments.py:203-215 | no tokens add 0 and one token adds its own contribution; with `TotalAppend` the total is the sum of the contributions in order |
| ImportProsody.CountSyllables | scripts/import_fragments.py:199-217 | the count is the sum of the tokens' contributions, floored at 1, so it is at least 1 for every text and estimator |
| ImportProsody.NoLettersOneSyllable | scripts/import_fragments.py:199-217 | a text without a letter (empty, blank, punctuation) counts exactly 1 syllable |
| ImportProsody.SyllablesAdditive | scripts/import_fragments.py:203-217 | the pre-floor total of two space-joined texts is the sum of their totals |
| ImportProsody.NoLetterWordsAddNothing | scripts/import_fragments.py:206-210 | tokens drawn from a letter-free text add no syllables before the floor |
| ImportProsody.TotalAppend | scripts/import_fragments.py:206-215 | the token total is additive over concatenated token lists |
| ImportProsody.PrefixNeverLowersCount | scripts/import_fragments.py:199-217 | with non-negative estimates, adding words in front of a line never lowers its count |
| ImportProsody.TotalNonNegative | scripts/import_fragments.py:206-215 | with non-negative estimates the token total is non-negative |
| ImportProsody.PhonesStress | scripts/import_fragments.py:236-243 | one binary symbol per stress digit, '1' exactly for primary stress |
| ImportProsody.WordStress | scripts/import_fragments.py:228-252 | an empty cleaned token adds nothing; a dictionary word adds its primary-stress pattern; an unknown word raises exactly when the estimate raises and otherwise adds '1' then zeros, max(1, syll) symbols in all |
| ImportProsody.Dict | scripts/import_fragments.py:193-196 | no contract of its own: `FailedLoadUsesEstimates` states what the empty dictionary of a failed load does to the stress |
| ImportProsody.FailedLoadUsesEstimates | scripts/import_fragments.py:193-196 | after a failed load (`CMU_DICT = {}`) every token is unknown: its stress raises exactly when the estimate does, and is otherwise '1' then zeros |
| ImportProsody.StressOfWords | scripts/import_fragments.py:225-252 | the pattern is binary and raises exactly when some unknown token's estimate raises |
| ImportProsody.StressOfWordsAppend | scripts/import_fragments.py:225-252 | the stress of concatenated token lists raises exactly when one part raises, and is otherwise the two parts' stresses joined in order |
| ImportProsody.StressOfWord | scripts/import_fragments.py:225-252 | a single token's stress is what that token contributes |
| ImportProsody.NoLetterWordsNoStress | scripts/import_fragments.py:229-231 | tokens without letters are skipped and contribute no stress |
| ImportProsody.LetterFreeLineNoStress | scripts/import_fragments.py:225-231 | a line without letters yields no stress symbol at all |
| ImportProsody.SilentPrefix | scripts/import_fragments.py:225-252 | tokens that contribute nothing in front leave the stress of the rest unchanged |
| ImportProsody.StressPattern | scripts/import_fragments.py:220-254 | a non-empty binary pattern, or an exception exactly when some token's estimate raises; it is the concatenated word stresses when they are non-empty and "1" whenever they are empty, letter-free lines included |
| ImportProsody.StressPatternOfJoin | scripts/import_fragments.py:220-254 | for two space-joined parts the pattern raises exactly when one part's does, and is the two patterns joined when both parts yield stress symbols |
| ImportProsody.LetterFreePrefixKeepsPattern | scripts/import_fragments.py:220-254 | a letter-free part in front of a line leaves its stress pattern unchanged |
| ImportProsody.EndRhyme | scripts/import_fragments.py:257-285 | `None` for all-whitespace text or a missing library; otherwise the rhyme of the last word |
| ImportProsody.EndRhymeOfLastWord | scripts/import_fragments.py:265-270 | the end rhyme depends on the last word only |
| ImportProsody.AnalyzeLine | scripts/import_fragments.py:288-296 | the record keeps the line and its number, its syllables are `count_syllables` of the line (at least 1), its stress is `get_stress_pattern` of the line (non-empty binary) and its rhyme is the end rhyme; it raises exactly when the stress pattern does |
| Fragments.KeepNonBlank | scripts/import_fragments.py:301 | every kept line is non-empty, stripped and without a line break, and there are never more lines than pieces |
| Fragments.KeepNonBlankAppend | scripts/import_fragments.py:301 | filtering concatenated piece lists filters each part and keeps their order |
| Fragments.KeepNonBlankOfPiece | scripts/import_fragments.py:301 | one piece is dropped when blank and otherwise kept, stripped |
| Fragments.NonBlankLines | scripts/import_fragments.py:301 | only clean lines are kept, and an all-whitespace text keeps none |
| Fragments.NonBlankLinesOfBreak | scripts/import_fragments.py:301 | the lines of two texts joined by a line break are the lines of the first followed by the lines of the second |
| Fragments.NonBlankLinesOfLine | scripts/import_fragments.py:301 | a text without a line break gives no line when blank and otherwise itself, stripped |
| Fragments.BlankPiecesVanish | scripts/import_fragments.py:301 | every piece of an all-whitespace text is dropped |
| Fragments.AllPiecesBlank | scripts/import_fragments.py:301 | if a join is all whitespace, so is every piece |
| Fragments.BlankKeepsNothing | scripts/import_fragments.py:301 | blank pieces are all dropped |
| Fragments.NonBlankLinesOfJoin | scripts/import_fragments.py:301 | clean lines joined by line breaks are recovered exactly, in order |
| Fragments.KeepCleanPieces | scripts/import_fragments.py:301 | clean pieces pass through unchanged |
| Fragments.Classify | scripts/import_fragments.py:309-320 | no contract of its own: `ClassifyByLineCount` states which line counts give which type, in both directions |
| Fragments.ClassifyByLineCount | scripts/import_fragments.py:309-320 | single-line iff 1 line, couplet iff 2, quatrain iff 4, verse iff 0, 3 or 5..8, stanza iff more than 8 |
| Fragments.LabelsDistinct | scripts/import_fragments.py:311-320 | the stored label identifies the type: two types have the same label exactly when they are equal |
| Fragments.AnalyzeLines | scripts/import_fragments.py:303-307 | the i-th record is the analysis of the i-th line numbered from the start value; the loop raises exactly when some line's analysis does |
| Fragments.LineAnalyserFacts | scripts/import_fragments.py:304-306 | the analyser applied to a line is `analyze_line_prosody` of that line and number: it raises exactly when the stress pattern does, and its record carries the line's number, text and end rhyme |
| Fragments.FragmentOfLines | scripts/import_fragments.py:303-326 | the i-th record is the analysis of the i-th line numbered i + 1, with that text, at least 1 syllable, non-empty stress and the line's end rhyme; the type is chosen by the line count; it raises exactly when some line's stress pattern raises |
| Fragments.AnalyzeFragment | scripts/import_fragments.py:299-326 | `lines` equals the number of records and of non-blank lines, the i-th record is the analysis of the i-th non-blank line numbered i + 1, with its end rhyme, and the type follows the line count; it raises exactly when some line's stress pattern raises |
| Normalise.OptionalField | scripts/import_fragments.py:109 | `None` exactly for a blank field, otherwise the stripped non-empty value |
| Normalise.RhythmicFlag | scripts/import_fragments.py:110 | the upper-cased stripped field equals "Y" exactly when the stripped field is "Y" or "y" |
| Normalise.ParseRow | scripts/import_fragments.py:106-112 | id and text are stripped, rhythmic is a stripped "Y"/"y", attribution and context are absent exactly when blank |
| Normalise.ParseCsv | scripts/import_fragments.py:105-113 | one fragment per row, in row order, each with the fields of its own row |
| Normalise.CleanTag | scripts/import_fragments.py:156 | a cleaned tag is stripped, lower-case and no longer than the element, and empty exactly when the element is blank |
| Normalise.CleanTagIgnoresPadding | scripts/import_fragments.py:156 | an element made of a stripped tag padded with whitespace cleans to that tag lower-cased |
| Normalise.TagSetCons | scripts/import_fragments.py:159 | the tag set of a reply is the first element's tag, if kept, joined to the tag set of the rest |
| Normalise.LongTags | scripts/import_fragments.py:159 | the kept tags are exactly the members of the set the source builds |
| Normalise.Dedup | scripts/import_fragments.py:159 | no duplicates, the same members, never longer |
| Normalise.ParseTags | scripts/import_fragments.py:153-161 | parsed tags are duplicate-free, stripped, lower-case and longer than one character, and are exactly the cleaned reply elements longer than one character |
| Normalise.LongWords | scripts/import_fragments.py:167 | every kept context word is lower-case, longer than 3 characters and whitespace-free |
| Normalise.LongWordsAppend | scripts/import_fragments.py:167 | filtering concatenated word lists filters each part and keeps their order |
| Normalise.LongWordsOfWord | scripts/import_fragments.py:167 | one word is kept, lower-cased, exactly when it has more than 3 characters |
| Normalise.Take | scripts/import_fragments.py:167 | `[:n]` is the first n elements, or the whole sequence when it has at most n |
| Normalise.FallbackTags | scripts/import_fragments.py:166-168 | without a context the tags are ['lyric', 'fragment']; with one, at most 5 lower-case words longer than 3 characters; `FallbackKeepsFewLongWords` and `FallbackTakesFirstFive` pin which ones |
| Normalise.FallbackKeepsFewLongWords | scripts/import_fragments.py:167 | a context with at most five long words gives all of them, lower-cased and in order |
| Normalise.FallbackTakesFirstFive | scripts/import_fragments.py:167 | once the start of a context holds five long words, the fallback is exactly those five, lower-cased and in order, whatever follows |
| Normalise.GenerateTags | scripts/import_fragments.py:144-168 | a reply gives the tags parsed from it, duplicate-free and clean; a failed call gives exactly the fallback: the default pair without a context, otherwise the context's first five long words (all of them when there are fewer) |
| Storage.Source | scripts/import_fragments.py:366 | the source is the attribution when it is non-empty and 'JC' otherwise |
| Storage.ContextNote | scripts/import_fragments.py:372 | the note is the context when there is one, and empty exactly when the context is absent or empty |
| Storage.ProsodyData | scripts/import_fragments.py:619-622 | only rhythmic fragments are analysed, and their analysis raising makes the step raise |
| Storage.SyllableCounts | scripts/import_fragments.py:469 | one syllable count per analysed line, in order |
| Storage.Metadata | scripts/import_fragments.py:459-470 | id, source, the rhythmic flag and at most 10 leading tags; for a rhythmic fragment with prosody, exactly the per-line syllable counts in order; raises exactly when that prosody has no line |
| Storage.LineRows | scripts/import_fragments.py:427-441 | one `fragment_lines` row per analysed line carrying its number, text, syllables, stress and rhyme |
| Storage.ImportFragment | scripts/import_fragments.py:611-646 | no contract of its own: `ImportDecisions` and `RhythmicRows` state when one import fails and what it stores |
| Storage.ImportDecisions | scripts/import_fragments.py:614-646 | one import fails exactly for a rhythmic fragment whose analysis raises or that has no non-blank line; otherwise all stored forms agree on id, source, rhythmic flag, tags and context, and prosody keys and line rows exist exactly for rhythmic fragments |
| Storage.RhythmicRows | scripts/import_fragments.py:614-646 | a rhythmic fragment that imports gets one line row per non-blank line, numbered from 1 with that line's text, at least 1 syllable and a non-empty stress; the metadata holds those rows' syllable counts in order, and the type and prosody keys follow the line count |
| Storage.NonRhythmicHasNoLines | scripts/import_fragments.py:374-378 | a non-rhythmic fragment always imports, with no line rows and no prosody key |
| Storage.FailedImports | scripts/import_fragments.py:609-653 | no contract of its own: `Successes` and `ImportLoop` state that `fail_count` and the successes together account for every fragment |
| Storage.Successes | scripts/import_fragments.py:611-653 | for any import step, successes and failures together account for every input fragment |
| Storage.ImportLoop | scripts/import_fragments.py:611-653 | for any step, the loop attempts every fragment, counts failures without stopping, and keeps the successes in input order |
| Storage.CompleteImport | scripts/import_fragments.py:608-653 | with the script's own import step, the success and failure counts cover every fragment and the kept outputs are the successes in input order |
| Storage.SuccessesComeFromInputs | scripts/import_fragments.py:611-653 | every kept result is the output of the step on some input fragment |
| British.ReplaceAll | scripts/reanalyze_prosody.py:172 | no contract of its own: `ReplaceAcrossSeparator` states that every occurrence is rewritten (parts cut by a character outside the pattern are rewritten independently), `ReplaceWhole` that an occurrence becomes the replacement, and `ReplaceBySelf`, `ReplaceAbsent`, `DeleteRemoves` and `ReplaceKeepsAbsent` the table's special cases |
| British.ReplaceWhole | scripts/reanalyze_prosody.py:172 | a string that is exactly the pattern becomes exactly the replacement |
| British.ReplaceAcrossSeparator | scripts/reanalyze_prosody.py:172 | a character the pattern does not contain splits the string into parts that are rewritten independently, so no occurrence after the first is missed |
| British.BothOccurrencesRewritten | scripts/reanalyze_prosody.py:172 | two occurrences of a pattern around a separator both become the replacement |
| British.ReplaceBySelf | scripts/reanalyze_prosody.py:166-167 | the THOUGHT-FORCE rules map a phone to itself and change nothing |
| British.ReplaceAbsent | scripts/reanalyze_prosody.py:172 | `replace` leaves a string lacking the pattern's first character unchanged |
| British.DeleteRemoves | scripts/reanalyze_prosody.py:164 | the deletion rule leaves no 'R' |
| British.ReplaceKeepsAbsent | scripts/reanalyze_prosody.py:172 | a rewrite whose replacement lacks a character cannot introduce it |
| British.ApplyRules | scripts/reanalyze_prosody.py:170-172 | no contract of its own: `ApplyRulesSplit` and `RulesAbsent` state how the rules apply one after another, and `NoRhoticR` what the whole table gives |
| British.ToBritish | scripts/reanalyze_prosody.py:152-174 | no contract of its own: `NoRhoticR` and `TrapVowelEndsInThought` state that the in-order conversion drops every 'R' and turns "AE1" into "AO1" |
| British.NoRhoticR | scripts/reanalyze_prosody.py:161-172 | the as-written conversion never outputs 'R': later rules cannot reintroduce it |
| British.ApplyRulesSplit | scripts/reanalyze_prosody.py:171-172 | applying the table in order is applying a prefix of it and then the rest |
| British.RulesAbsent | scripts/reanalyze_prosody.py:171-172 | rules whose patterns start with absent characters leave the string unchanged |
| British.TailKeepsThought | scripts/reanalyze_prosody.py:161-172 | the rules after LOT-CLOTH leave an AO vowel as it is |
| British.TrapVowelEndsInThought | scripts/reanalyze_prosody.py:154-172 | as written, "AE1" is rewritten twice and ends as "AO1" |
| British.UnstressedTrapVowelEndsInThought | scripts/reanalyze_prosody.py:154-172 | as written, "AE0" ends as "AO0" |
| British.UntouchedWithoutRuleLetters | scripts/reanalyze_prosody.py:170-174 | phone strings without 'A', 'E' or 'R' come back unchanged |
| British.MatchIndex | scripts/reanalyze_prosody.py:154-168 | the rule that fires at a position is the first table entry whose pattern starts there |
| British.ToBritishIntended | scripts/reanalyze_prosody.py:152-174 | no contract of its own: `IntendedDropsR` and `EveryEntryLooksUp` state that the lookup reading drops every 'R' and maps each table phone to its own entry |
| British.IntendedDropsR | scripts/reanalyze_prosody.py:161-164 | the single-pass conversion removes every 'R' |
| British.NoEarlierPrefix | scripts/reanalyze_prosody.py:154-168 | no pattern of the table starts a later pattern |
| British.ReplacementsLackR | scripts/reanalyze_prosody.py:154-168 | no British replacement in the table contains an 'R' |
| British.PatternByItsEntry | scripts/reanalyze_prosody.py:154-168 | for any table, a pattern that no earlier pattern starts is rewritten to exactly its own replacement |
| British.PhoneByItsEntry | scripts/reanalyze_prosody.py:154-168 | a phone no earlier pattern matches converts to its own entry |
| British.EveryEntryLooksUp | scripts/reanalyze_prosody.py:154-168 | each American phone of the table converts to exactly its British entry |
| British.TrapVowelBecomesBath | scripts/reanalyze_prosody.py:155-157 | "AE1" becomes "AA1" and "AE0" becomes "AA0" |
| British.LotVowelBecomesThought | scripts/reanalyze_prosody.py:158-159 | "AA1" becomes "AO1" |
| Reanalyze.SyllablesLibrary | scripts/reanalyze_prosody.py:45-46 | no contract of its own: `CountSyllables` states that without the package the count is the fallback |
| Reanalyze.SumEstimates | scripts/reanalyze_prosody.py:47-48 | the sum raises exactly when some token's estimate raises, and is 0 for no tokens |
| Reanalyze.SumEstimatesAppend | scripts/reanalyze_prosody.py:47-48 | the sum over concatenated token lists raises exactly when one part's does, and is otherwise the sum of the parts' sums |
| Reanalyze.SumEstimatesOfWord | scripts/reanalyze_prosody.py:47-48 | one token sums to its own estimate |
| Reanalyze.ScanVowelRuns | scripts/reanalyze_prosody.py:52-63 | no contract of its own: `ScanCountsRuns` states that the scan counts exactly the maximal `aeiouy` runs |
| Reanalyze.ScanCountsRuns | scripts/reanalyze_prosody.py:52-63 | the fallback's scan counts exactly the maximal runs of `aeiouy` |
| Reanalyze.ScanFrom | scripts/reanalyze_prosody.py:57-61 | the scan from any position counts the runs starting from there |
| Reanalyze.RunsNeverDecrease | scripts/reanalyze_prosody.py:52-63 | appending text never lowers the number of vowel runs |
| Reanalyze.RunStartsPrefix | scripts/reanalyze_prosody.py:57-61 | runs starting before position n do not depend on what follows the prefix |
| Reanalyze.RunStartsMonotone | scripts/reanalyze_prosody.py:57-61 | runs counted up to a later position are at least as many |
| Reanalyze.FallbackSyllables | scripts/reanalyze_prosody.py:51-63 | the fallback count is the number of maximal `aeiouy` runs of the lower-cased text, at least 1, and exactly 1 for blank text |
| Reanalyze.CountSyllables | scripts/reanalyze_prosody.py:43-63 | without the `syllables` package the count is the vowel-run fallback; with it, whitespace-only text counts 0, the sum of the token estimates is used when none raises, and the fallback for the whole text when one does |
| Reanalyze.SingleTokenSyllables | scripts/reanalyze_prosody.py:43-63 | a single token counts its estimate, or the fallback when that raises |
| Reanalyze.SyllablesAdditive | scripts/reanalyze_prosody.py:43-48 | when no estimate raises, the count of two space-joined texts is the sum of their counts |
| Reanalyze.PhonesStress | scripts/reanalyze_prosody.py:95-102 | one binary symbol per stress digit, '1' exactly for primary or secondary stress |
| Reanalyze.WordStress | scripts/reanalyze_prosody.py:90-109 | a dictionary word adds its stress symbols; any other token, even one without letters, adds '1' then zeros, max(1, syllables) in all |
| Reanalyze.StressOfWords | scripts/reanalyze_prosody.py:90-109 | the concatenated pattern is binary |
| Reanalyze.StressOfWordsAppend | scripts/reanalyze_prosody.py:90-109 | the stress of concatenated token lists is the two parts' stresses joined in order |
| Reanalyze.StressOfWord | scripts/reanalyze_prosody.py:90-109 | a single token's stress is what that token contributes |
| Reanalyze.StressPattern | scripts/reanalyze_prosody.py:66-111 | a non-empty binary pattern: the concatenated word stresses when the dictionary loaded and they are non-empty, and "1" in every other case, a failed load and a blank line included |
| Reanalyze.StressPatternOfJoin | scripts/reanalyze_prosody.py:66-111 | for two space-joined parts that both yield stress symbols, the pattern is the two patterns joined |
| Reanalyze.PunctuationTokenAddsOne | scripts/reanalyze_prosody.py:91 | a token without letters adds exactly "1" |
| Reanalyze.GbRhyme | scripts/reanalyze_prosody.py:137-147 | the phonemizer's answer is used exactly when it is non-empty and differs from the word; when the phonemizer raises and the American sound is non-empty, the sound converted by the table applied rule after rule, which holds no 'R' |
| Reanalyze.GbRhymeIntended | scripts/reanalyze_prosody.py:137-147 | the same rhyme with each American phone converted once by its own table entry; no 'R' is left |
| Reanalyze.TrapRhymeAsWritten | scripts/reanalyze_prosody.py:143-174 | with a raising phonemizer, the American sound "AE1" is stored as "AO1", where the lookup reading gives "AA1" |
| Reanalyze.DualRhymes | scripts/reanalyze_prosody.py:114-149 | no words gives no rhymes; otherwise the American rhyme of the last word and the British rhyme derived from it |
| Reanalyze.EchoedWordLeavesGbUnset | scripts/reanalyze_prosody.py:139-142 | a phonemizer that echoes the word leaves the British rhyme unset |
| Reanalyze.AnalyzeLine | scripts/reanalyze_prosody.py:177-188 | the record keeps the text; its syllables, stress and both rhymes are `count_syllables`, `get_stress_pattern` and `get_dual_rhyme_sounds` of the line; `end_rhyme` equals `end_rhyme_gb`; whitespace-only text has no rhymes and 0 syllables, or 1 without the `syllables` package |
| Reanalysis.Refresh | scripts/reanalyze_prosody.py:216-237 | an update keeps the row's text and stores the line's syllables, stress and American and British rhymes, with `end_rhyme` set to the British rhyme |
| Reanalysis.RefreshIdempotent | scripts/reanalyze_prosody.py:216-237 | updating a row twice gives the same row as updating it once |
| Reanalysis.RhythmicIdsMembers | scripts/reanalyze_prosody.py:275-283 | a fragment id is re-analysed exactly when some rhythmic entry carries it |
| Reanalysis.Reanalyzed | scripts/reanalyze_prosody.py:275-305 | the table keeps its keys and every line's text |
| Reanalysis.ReanalysisIdempotent | scripts/reanalyze_prosody.py:275-305 | running the re-analysis twice gives the same table as running it once |
| Reanalysis.LinesOf | scripts/reanalyze_prosody.py:205-213 | no contract of its own: `RefreshOneMore` and `ReanalyzeAll` state that exactly these rows of a rhythmic fragment are refreshed |
| Reanalysis.RhythmicLineCount | scripts/reanalyze_prosody.py:272-305 | no contract of its own: `PrefixStep` and `ReanalyzeAll` state that `updated_lines` grows by the rows of each rhythmic entry |
| Reanalysis.NonRhythmicCount | scripts/reanalyze_prosody.py:273-281 | no contract of its own: `PrefixStep` and `ReanalyzeAll` state that `skipped_fragments` counts the non-rhythmic entries |
| Reanalysis.RefreshRows | scripts/reanalyze_prosody.py:291-305 | exactly the given rows are updated, each once, and they are counted |
| Reanalysis.RefreshOneMore | scripts/reanalyze_prosody.py:288-305 | updating one more fragment's rows extends the set of refreshed fragments by that id |
| Reanalysis.PrefixStep | scripts/reanalyze_prosody.py:275-283 | one more entry adds its id if rhythmic, its line count to `updated_lines` if rhythmic, and 1 to `skipped_fragments` otherwise |
| Reanalysis.ReanalyzeAll | scripts/reanalyze_prosody.py:272-305 | non-rhythmic fragments are skipped; exactly the rows of rhythmic fragments are rewritten, keeping keys and text; `updated_lines` is the rows of rhythmic entries; the result equals the pure table update |
| Versions.SecondaryStressDiffers | scripts/reanalyze_prosody.py:98-102 | a secondary-stress vowel is '0' on import and '1' on re-analysis |
| Versions.BlankLineSyllablesDiffer | scripts/reanalyze_prosody.py:43-48 | with the `syllables` package installed, a blank line counts 1 syllable on import and 0 on re-analysis |
| Versions.PunctuationTokenDiffers | scripts/reanalyze_prosody.py:90-109 | a token without letters adds nothing on import and "1" on re-analysis |
| Versions.ImportOneWordLine | scripts/import_fragments.py:220-254 | on import, a one-word line's pattern is that word's stress when it is non-empty |
| Versions.ReanalysisOneWordLine | scripts/reanalyze_prosody.py:66-111 | on re-analysis, a one-word line's pattern is that word's stress when it is non-empty |
| Versions.IntoStressDiffers | scripts/reanalyze_prosody.py:87-111 | a worked instance of `SecondaryStressDiffers` on a whole line: with "into" as IH2 N T UW1, the line "into" is "01" on import and "11" on re-analysis |

## Left out

- I/O is not modelled: the OpenRouter chat and embedding calls, the Postgres statements, the Upstash upsert, markdown and YAML writing, and CSV and JSON reading. The model keeps only the text post-processing and the decisions about which keys and rows are produced. An exception from these services is not modelled.
- `avg_syllables`: `round(sum / len, 1)` is floating point. The metadata keeps the list of syllable counts it is computed from, and the division by zero on an empty list.
- Timestamps (`datetime.now()`), logging, `asyncio.sleep`, the asyncio orchestration, `Config.validate`, `sys.exit` and `main` are plumbing.
- `generate_tags_phase` (phase 1) is left out. It is orchestration around the tag parse, which is modelled.
- The lazy global `CMU_DICT` is an input (`Option<CmuDict>`), not mutable state. A failed load in the import script behaves like an empty dictionary. In the re-analysis script it makes `get_stress_pattern` return "1".
- `isalpha`, `isdigit`, `lower` and `upper` are approximated on ASCII letters. Whitespace for `split()` and `strip()` uses the exact set of code points `str.isspace` accepts.
- Normalise.Dedup: the source deduplicates through a `set`, whose iteration order is unspecified. The model keeps first occurrences, and its contract states only membership and the absence of duplicates.
- An `ImportError` for `syllables` in the import script is not modelled: there the import sits outside any `try`, so the analysis would raise; the model calls the estimator as if the package were installed. In the re-analysis script the import sits inside the `try`, and the model follows it (`Reanalyze.SyllablesLibrary`).
- `pronouncing.phones_for_word` is total in the model. In the re-analysis script an exception from it would leave the American rhyme unset; the model does not represent that exception.
- A CMUdict entry without a pronunciation, or with an empty phone, cannot be expressed. Those would raise `IndexError` in the source.
- `fetch_all_fragments` orders by id, and lines are fetched in line order. The table update does not depend on that order, so the model takes the fragments as a sequence and the rows as a set.

## Findings

| source | as written | input that shows it | evidently intended | confidence | as-written member | corrected member |
|---|---|---|---|---|---|---|
| scripts/reanalyze_prosody.py:154-172 | each rule replaces across the whole string before the next rule runs, so the output of the TRAP-BATH rules is rewritten again by the LOT-CLOTH rules | the phone string "AE1" becomes "AO1", and "AE0" becomes "AO0" | the table read as a lookup, each American phone replaced once by its own entry, so "AE1" becomes "AA1" as the TRAP-BATH comment says | medium, not executed | British.TrapVowelEndsInThought, Reanalyze.TrapRhymeAsWritten | British.EveryEntryLooksUp, Reanalyze.GbRhymeIntended |

The British rhyme of the model (`Reanalyze.GbRhyme`) uses the conversion as written, `British.ToBritish`, as the script does; `Reanalyze.TrapRhymeAsWritten` shows the stored sound that results. `Reanalyze.GbRhymeIntended` is the same rhyme with the corrected conversion, `British.ToBritishIntended`.
