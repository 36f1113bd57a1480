# Deep Comedy metrics, modelled in Dafny

This project models the scoring code that rates a generated canto in the style of Dante's
Divine Comedy (`metrics/`). It covers:

- the scanner that cuts the text into tercet windows (`_extract_terzine`);
- the per-window meter and rhyme scorers (`_hendecasyllabicness`, `_rhymeness`,
  `_extract_last_words`);
- the aggregation in `evaluate`;
- the string normalisers and the first, deterministic phase of Italian syllabification
  (`split_words`, `_is_split_acceptable`, `textip_hashes`, `prettify` and its helpers,
  `_split_multiple_cons`, `_split_double_cons`, `_split_dieresis`, `_split_hiatus`,
  `_perform_initial_splits`, `syllabify_block`);
- the two n-gram counters (`ngrams_repetitivity`, `ngrams_plagiarism`).

Modules, one per source file plus two shared ones:

| module | file | models |
|---|---|---|
| `Builtins` | builtins.dfy | Python's `str.split`, `str.join`, `in` on strings, slicing, `re.sub(..., "")` as `Remove`, and the `Result`/`Fault` type for raised exceptions |
| `Externals` | externals.dfy | the collaborators whose code is not part of this model, passed as function values in `Env` |
| `Syllabification` | syllabification.py | normalisers, `split_words`, the first phase of syllabification, `syllabify_block` |
| `Terzine` | metrics.py:132-159 | `_extract_terzine` |
| `Metrics` | metrics.py | scorers, last words, `evaluate` |
| `Ngrams` | shared by both counters | the window count, the counting, the final ratio |
| `Repetitivity`, `Plagiarism` | repetitivity.py, plagiarism.py | the two counters |

Where the source works by updating variables in a loop, the model is a `method` with that loop. Each such method is
proved equal to a specification function (`ExtractTerzine`, `ComputeEvaluate`,
`ComputeHendecasyllabicness`, `ComputeRhymeness`, `SplitWords`, `ComputeRepetitivity`,
`ComputePlagiarism`). The lemmas then state what the source promises about those functions.
Exceptions are values: `Failure(IndexError)` and `Failure(ZeroDivisionError)`.

Regex searches in `_extract_terzine` are modelled on the list of lines `tmp.split("\n")`.
Every pattern there starts with `[^\n]+`, so a leftmost match starts at a line start, and a
search is the first line index where the pattern's line shape holds. A skip that does not
consume the optional `\n\n` leaves text that starts with a newline. The model represents it as
the lines `[""] + rest`.

Each step of the first syllabification phase is `m.join(p.sub(r"\1@", s).split("@"))` with a
one-character match and a lookahead. It is modelled as `MarkAfter(s, at, m)`: `m` is put after
every position whose context satisfies `at`. `MarkWithIsMarkAfter` proves the idiom equal to
that on text without `@`. `_split_hiatus` has alternatives of two and three characters, so it
has its own scanner, `HiatusMark`.

## Model

| member | source | states |
|---|---|---|
| Builtins.Split | metrics/metrics.py:165 | `str.split` always returns at least one piece |
| Builtins.SplitSepFree | metrics/metrics.py:165 | no piece of `s.split(sep)` contains `sep` |
| Builtins.JoinSplit | metrics/metrics.py:20 | `sep.join(s.split(sep)) == s` |
| Builtins.SplitJoin | metrics/metrics.py:20 | splitting a join of separator-free pieces gives the pieces back |
| Builtins.SplitGlue | metrics/metrics.py:20-23 | the lines of `last_terzina + "\n".join(terzina.split("\n")[1:])` are those of the first window, with its last line glued to the second line of the next |
| Builtins.JoinSplitReplaces | metrics/syllabification.py:119 | `b.join(s.split(a))` replaces every `a` by `b` and nothing else |
| Builtins.ConcatSplitRemoves | metrics/syllabification.py:138 | `"".join(re.split("§", s))` deletes every `§` |
| Builtins.RemoveKeeps | metrics/syllabification.py:50 | a deleting `re.sub` keeps every other character as often as it occurs and no deleted one |
| Builtins.RemoveAppend | metrics/syllabification.py:50 | deletion distributes over concatenation |
| Builtins.NonEmpty | metrics/metrics.py:167 | `[line for line in lines if line != ""]` holds only non-empty lines taken from the list |
| Builtins.NonEmptyKeeps | metrics/metrics.py:167 | every non-empty line is kept, and exactly the empty ones are dropped (the length is the count of non-empty lines) |
| Builtins.JoinWindow | metrics/plagiarism.py:12 | the join of a window of tokens occurs in the join of all of them |
| Syllabification.TextipHashes | metrics/syllabification.py:49-50 | the result has no `#` and every other character as often as the input |
| Syllabification.TextipHashesIdempotent | metrics/syllabification.py:49-50 | applying `textip_hashes` twice is applying it once |
| Syllabification.TextipHashesInOrder | metrics/syllabification.py:49-50 | character by character: a `#` becomes nothing, any other character stays, and order is kept |
| Syllabification.TextipPunctuation | metrics/syllabification.py:73-74 | no listed punctuation is left and every other character keeps its count |
| Syllabification.TextipPunctuationInOrder | metrics/syllabification.py:73-74 | character by character: listed punctuation becomes nothing, any other character stays, and order is kept |
| Syllabification.TextipSpaces | metrics/syllabification.py:88-89 | no whitespace is left and every other character keeps its count |
| Syllabification.TextipSpacesInOrder | metrics/syllabification.py:88-89 | character by character: whitespace becomes nothing, any other character stays, and order is kept |
| Syllabification.RemoveDiacritics | metrics/syllabification.py:78-84 | same length; no àä èéë ìï òóö ùü is left; every other character is unchanged; each character is replaced by its `BaseVowel` |
| Syllabification.BaseVowelClasses | metrics/syllabification.py:79-83 | àä become a, èéë become e, ìï become i, òóö become o, ùü become u, and every other character stays |
| Syllabification.Prettify | metrics/syllabification.py:40-45 | no whitespace and none of the listed punctuation remain; without `keep_diacritics` no diacritic remains |
| Syllabification.RunEnd | metrics/syllabification.py:14 | the run of boundary characters from a position ends at the first non-boundary character |
| Syllabification.BoundaryMatchesAreRuns | metrics/syllabification.py:14-15 | every match of the word-boundary pattern is a maximal run of punctuation and whitespace that holds whitespace |
| Syllabification.BoundaryMatchesComplete | metrics/syllabification.py:14-15 | conversely, every such maximal run from the scan position on is a match: `finditer` misses none |
| Syllabification.BoundaryMatchesOrdered | metrics/syllabification.py:14-15 | the matches come in text order and do not touch |
| Syllabification.SplitAcceptableSynalepha | metrics/syllabification.py:57-69 | with `synalepha`, a boundary between two vowels is refused; a boundary accepted with `synalepha` is accepted without it; a boundary with a newline is accepted without `synalepha` |
| Syllabification.HasNewlineIff | metrics/syllabification.py:62-64 | `.*\n+.*` matches exactly when the text holds a newline |
| Syllabification.ApostropheBeforeNewlineIff | metrics/syllabification.py:61-64 | the apostrophe pattern matches exactly when an apostrophe comes before the first newline |
| Syllabification.SplitAcceptableWithoutApostrophe | metrics/syllabification.py:57-69 | without apostrophes a boundary is refused only for synalepha between two vowels |
| Syllabification.CollectCuts | metrics/syllabification.py:16-22 | the loop's `indexes` are 0 followed by the accepted cut points |
| Syllabification.SplitWords | metrics/syllabification.py:13-24 | `split_words` as written equals the word list `Words` |
| Syllabification.CutsIncreasing | metrics/syllabification.py:18-22 | the cut points strictly increase and lie in `1..len(text)` |
| Syllabification.ConcatSlices | metrics/syllabification.py:24 | the slices between increasing indexes concatenate to the text from the first index |
| Syllabification.WordsCover | metrics/syllabification.py:13-24 | the words concatenate to the text; the list is never empty; with no boundary match it is `[text]` |
| Syllabification.WordsUncut | metrics/syllabification.py:16-24 | when every boundary match is rejected (no index is appended after the leading 0), the only word is the whole text |
| Syllabification.WordsLast | metrics/syllabification.py:16-24 | the last word runs from the last appended index (0 without one) to the end of the text |
| Syllabification.CutAtSynalepha | metrics/syllabification.py:19-67 | with `synalepha` a boundary is cut at the same point or not at all |
| Syllabification.SynalephaCutsFewer | metrics/syllabification.py:18-67 | every cut made with `synalepha` is also made without it |
| Syllabification.SynalephaWordsFewer | metrics/syllabification.py:13-67 | `synalepha=True` gives no more words than `False`, and its cut points are a subset |
| Syllabification.MarkAfterErase | metrics/syllabification.py:119 | deleting the marker undoes the marking |
| Syllabification.MarkWithIsMarkAfter | metrics/syllabification.py:119 | on text without `@`, `m.join(p.sub(r"\1@", s).split("@"))` puts `m` after each matching character |
| Syllabification.ReplaceMarks | metrics/syllabification.py:119 | turning the `@` markers into `m` gives the text marked with `m` directly |
| Syllabification.MarkOverMarks | metrics/syllabification.py:131-134 | a protecting step after another that blocks it marks exactly where either matches |
| Syllabification.FinalMarks | metrics/syllabification.py:136-138 | splitting after protecting and then deleting `§` marks exactly the unprotected matches |
| Syllabification.StepMuteLiquid | metrics/syllabification.py:131-132 | after impure s is protected, the mute-liquid pattern matches only where it did and impure s did not |
| Syllabification.StepDigram | metrics/syllabification.py:133 | after the first two steps, the digram pattern matches only where it did and they did not |
| Syllabification.StepTrigram | metrics/syllabification.py:134 | after the first three steps, the trigram pattern never matches |
| Syllabification.StepMultiCons | metrics/syllabification.py:136 | after the four protecting steps, the consonant-pair pattern matches only where it did and the protection did not |
| Syllabification.ProtectMuteLiquid | metrics/syllabification.py:131-132 | the first two steps mark exactly the impure s and the mute-liquid positions |
| Syllabification.ProtectDigram | metrics/syllabification.py:133 | the first three steps mark exactly the positions of the first two patterns and the digrams |
| Syllabification.ProtectTrigram | metrics/syllabification.py:134 | the four protecting steps mark exactly where one of the four patterns matches |
| Syllabification.SplitRemaining | metrics/syllabification.py:136-138 | the last step and the `§` deletion split exactly the unprotected consonant pairs |
| Syllabification.SplitMultipleConsMarks | metrics/syllabification.py:123-138 | `_split_multiple_cons` puts `#` after a consonant followed by a consonant, never after an impure s, a mute before a liquid, or the start of a digram or trigram |
| Syllabification.SplitDoubleConsMarks | metrics/syllabification.py:117-119 | `_split_double_cons` puts `#` between two equal consonants and between c and q, nowhere else |
| Syllabification.SplitDoubleConsAlle | metrics/syllabification.py:116-119 | "alle" becomes "al#le" |
| Syllabification.SplitDieresisMarks | metrics/syllabification.py:142-144 | `_split_dieresis` puts `#` between a vowel with a dieresis and a plain vowel, in either order |
| Syllabification.HiatusMatch | metrics/syllabification.py:149 | shape only: a hiatus match is one, two or three characters long and lies inside the text; which alternative matches is the definition itself |
| Syllabification.HiatusMarkErase | metrics/syllabification.py:148-150 | deleting `@` undoes the hiatus marking |
| Syllabification.SplitHiatusErase | metrics/syllabification.py:148-150 | deleting every `#` from `_split_hiatus`'s output gives its input with `#` and `@` deleted |
| Syllabification.ConsonantSplitsErase | metrics/syllabification.py:117-144 | on marker-free text the consonant and dieresis splits only insert `#` and leave no `@` |
| Syllabification.InitialSplitsErase | metrics/syllabification.py:93-94 | on marker-free text deleting every `#` from `_perform_initial_splits` gives the text back, and no other character is added or lost |
| Syllabification.SyllabifyBlockErase | metrics/syllabification.py:33-36 | deleting every `#` from `syllabify_block` gives the text back, when the second phase only inserts `#` |
| Terzine.Skip | metrics/metrics.py:137-152 | a skip leaves strictly fewer lines, so the scanner terminates |
| Terzine.SearchFinds | metrics/metrics.py:142 | a search returns the first matching line from the start position, or no match |
| Terzine.SearchBefore | metrics/metrics.py:146-152 | a search that can match at a line finds a match at or before it |
| Terzine.SkipFound | metrics/metrics.py:146 | after an aligned match, the skip pattern matches too, at or before it |
| Terzine.ExtractTerzine | metrics/metrics.py:132-159 | `_extract_terzine` as written equals `Terzine(text)` |
| Terzine.AlignedLoop | metrics/metrics.py:144-147 | the `while m:` loop appends the windows of the aligned scan |
| Terzine.AlignedWindowShape | metrics/metrics.py:134-145 | an aligned window has the shape verse, verse, verse, blank, verse, newline and occurs in the text |
| Terzine.OffsetWindowShape | metrics/metrics.py:136-151 | an offset window is six lines (verse, verse, blank, verse, verse, verse) with no final newline, and occurs in the text |
| Terzine.SkipShape | metrics/metrics.py:146-152 | the text left after a skip is still a piece of the text |
| Terzine.AlignedScanTercets | metrics/metrics.py:143-147 | every window of the aligned loop has the aligned shape and occurs in the text |
| Terzine.TerzineWindows | metrics/metrics.py:132-159 | with an aligned match anywhere, every window is aligned and occurs in the text; otherwise only the first may be an offset window; no window exactly when neither pattern matches anywhere |
| Terzine.OffsetAtMostOne | metrics/metrics.py:148-157 | without an aligned match anywhere, at most one window is found |
| Terzine.TerzineShapes | metrics/metrics.py:132-159 | every window after the first is aligned; the first is aligned or offset |
| Terzine.RepeatedWindow | metrics/metrics.py:142-147 | on the lines A, B, C, D, E, F, blank, G, blank the aligned loop takes the window D, E, F, blank, G twice |
| Terzine.RepeatedWindowText | metrics/metrics.py:136-147 | `_extract_terzine` on the text with those lines ("A\nB\nC\nD\nE\nF\n\nG\n") returns that window twice |
| Terzine.ChainedWindows | metrics/metrics.py:136-147 | on the text "A\nB\nC\n\nD\nE\nF\n\nG\n" the windows chain: A, B, C, blank, D and then D, E, F, blank, G |
| Metrics.LastWord | metrics/metrics.py:168 | `split_words(v, False)[-1]` is the suffix of the verse from the last accepted cut, or the whole verse when no cut is accepted |
| Metrics.NormalisedClean | metrics/metrics.py:169 | a normalised last word has no `#`, whitespace or listed punctuation |
| Metrics.ExtractLastWords | metrics/metrics.py:164-170 | one entry per non-empty line, in order: entry k is verse k's last word with `prettify(w, True)` and `textip_hashes` applied, and it is clean |
| Metrics.ComputeHendecasyllabicness | metrics/metrics.py:69-87 | the loop as written equals the sum of the verses' contributions divided by 4 |
| Metrics.ScoreVerse | metrics/metrics.py:73-85 | a verse contributes at most 1.0, and exactly 1.0 when its syllable count hits the target (10 after a stressed last syllable, 11 otherwise) or, when permissive, is one away from it |
| Metrics.ScoreCount | metrics/metrics.py:82-85 | a syllable count scores at most 1.0, and 1.0 exactly on the target or, when permissive, one away from it |
| Metrics.MeterSumStep | metrics/metrics.py:72-85 | a blank line adds nothing to the running score |
| Metrics.LineScoreAtMostOne | metrics/metrics.py:82-85 | a contribution is at most 1, and equals 1 exactly at the target, or within one of it when permissive |
| Metrics.LineScoreSign | metrics/metrics.py:82-83 | a contribution is non-negative exactly when the count is at most twice the target |
| Metrics.LineScoreDecreasing | metrics/metrics.py:82-83 | further from the target scores strictly lower |
| Metrics.NegativeLineScore | metrics/metrics.py:83 | 23 syllables against a target of 11 contribute a negative amount |
| Metrics.LineMeterAtMostOne | metrics/metrics.py:73-85 | a verse contributes at most 1, and exactly 1 when its count hits the target (or is within one of it when permissive) |
| Metrics.MeterSumBound | metrics/metrics.py:70-87 | the running score is at most the number of verses, with equality exactly when every verse scores 1 |
| Metrics.TercetVerses | metrics/metrics.py:71-73 | an aligned window has four verses |
| Metrics.TercetMeter | metrics/metrics.py:69-87 | an aligned window's meter score is at most 1, and equals 1 exactly when every verse scores 1 |
| Metrics.RhymeScores | metrics/metrics.py:112-113 | shape only: three checks are made; which last words they compare is the definition itself |
| Metrics.ComputeRhymeness | metrics/metrics.py:108-120 | `_rhymeness` as written equals `Rhymeness(text)` |
| Metrics.ScoreRhymes | metrics/metrics.py:111-120 | the counting loop over the three checks as written |
| Metrics.RhymeShareValues | metrics/metrics.py:116-120 | the share is 0, 1/3, 2/3 or 1; 1 exactly when every check reaches the threshold, 0 exactly when none does |
| Metrics.RhymenessOfWordsValues | metrics/metrics.py:110-120 | `IndexError` exactly with fewer than seven words; otherwise one of 0, 1/3, 2/3, 1, with 1 iff the pairs (1,3), (3,5), (4,6) all reach the threshold and 0 iff none does |
| Metrics.RhymenessFails | metrics/metrics.py:108-168 | `_rhymeness` raises `IndexError` exactly when the text has fewer than seven non-empty lines, and otherwise lies in [0, 1] |
| Metrics.ComputeEvaluate | metrics/metrics.py:12-63 | `evaluate` as written equals `Evaluate` |
| Metrics.ScoreWindows | metrics/metrics.py:15-27 | the loop over `terzine[1:]` equals the running sums `Sums`, or the first fault |
| Metrics.Summarise | metrics/metrics.py:34-61 | a record exactly when there are at least two windows, `ZeroDivisionError` otherwise; the putative and well-formed tercet counts; structuredness is 1.0 exactly when the text has 4k + 2 pieces; a meter sum of at most k - 1 averages below 1.0; a rhyme sum in [0, k - 1] averages into [0, 1] |
| Metrics.SumsGrows | metrics/metrics.py:18-27 | one iteration adds the window's meter score and the pair's rhyme score |
| Metrics.SumsFails | metrics/metrics.py:23 | a raising rhyme score ends the loop with that fault |
| Metrics.SumsFailureStays | metrics/metrics.py:18-27 | once raised, the fault is the loop's outcome |
| Metrics.SumsSucceedIff | metrics/metrics.py:18-27 | the loop succeeds exactly when no pair's rhyme score raises |
| Metrics.SumsTotals | metrics/metrics.py:17-27 | the meter sum adds the windows from the second on and never the first; the rhyme sum adds every consecutive pair |
| Metrics.TotalsStep | metrics/metrics.py:24-25 | each iteration adds one window and one pair to the totals |
| Metrics.PairVerses | metrics/metrics.py:20-23 | the text scored for a pair of windows has exactly seven verses |
| Metrics.PairScores | metrics/metrics.py:19-25 | inside `evaluate` a pair's rhyme score never raises and lies in [0, 1]; a window's meter score is at most 1 |
| Metrics.SumsSucceed | metrics/metrics.py:18-25 | with such pairs, the loop succeeds and both sums are at most the number of pairs |
| Metrics.WindowSums | metrics/metrics.py:13-27 | on the windows of any text the loop succeeds, with both sums bounded by k - 1 |
| Metrics.EvaluateOutcome | metrics/metrics.py:13-63 | no window raises `IndexError` at `terzine[0]`; otherwise a plagiarism or repetitivity fault is raised, in that order; a single window raises `ZeroDivisionError`; success exactly with two or more windows and both counters succeeding |
| Metrics.EvaluateScores | metrics/metrics.py:34-61 | putative tercets is (P - 1) div 4 for P pieces; well-formed tercets is k; meter average < 1; rhyme average in [0, 1]; plagiarism and repetitivity are the counters' values |
| Metrics.AggregateScores | metrics/metrics.py:38-61 | structuredness is (4k + 2)/P, and 1 exactly when P = 4k + 2; the meter sum is divided by k and is then at most (k - 1)/k; the rhyme sum is divided by k - 1 |
| Metrics.AverageBounds | metrics/metrics.py:41-42 | the two averages keep the sums' bounds |
| Ngrams.CountBounds | metrics/repetitivity.py:9-14 | the counter stays between 0 and the number of positions |
| Ngrams.CountNone | metrics/repetitivity.py:11-14 | the counter is 0 exactly when no position is hit |
| Ngrams.CountAll | metrics/repetitivity.py:11-14 | the counter equals the number of positions exactly when every one is hit |
| Ngrams.ScoreRange | metrics/repetitivity.py:15 | with a positive total, `1 - count/total` is in [0, 1]; it is 1 iff the count is 0 and 0 iff the count is the total |
| Ngrams.ScoreEmpty | metrics/repetitivity.py:8-15 | with a negative total the loop is empty and the result is 1 |
| Repetitivity.ComputeRepetitivity | metrics/repetitivity.py:3-15 | the loop as written equals `NgramsRepetitivity`, which counts over exactly len(tokens) - n + 1 positions of the lower-cased, tokenized text |
| Repetitivity.RepetitivityRange | metrics/repetitivity.py:8-15 | with at least one n-gram the result is in [0, 1]; 1 iff no n-gram occurs in its remaining text, 0 iff every one does |
| Repetitivity.RepetitivityEdges | metrics/repetitivity.py:8-15 | `ZeroDivisionError` exactly with n - 1 tokens; 1 with fewer |
| Repetitivity.RemainingExcludesNgram | metrics/repetitivity.py:13 | shape only: the slices before the n-gram, the n-gram and after it partition the token list, so the remaining text leaves out exactly the n-gram's positions |
| Plagiarism.ComputePlagiarism | metrics/plagiarism.py:3-15 | the loop as written equals `NgramsPlagiarism`; the original is prepared once before the loop |
| Plagiarism.PlagiarismRange | metrics/plagiarism.py:9-15 | with at least one n-gram the result is in [0, 1]; 1 iff no n-gram occurs in the original, 0 iff every one does |
| Plagiarism.PlagiarismEdges | metrics/plagiarism.py:9-15 | `ZeroDivisionError` exactly with n - 1 generated tokens; 1 with fewer |
| Plagiarism.PlagiarismOfItself | metrics/plagiarism.py:6-14 | when the tokenizer joins with a separator, a text checked against itself scores 0 |

Behaviour of the code that the model keeps:

- A verse's meter contribution `1 - abs(n - target)/target` is not bounded below by 0. A verse
  of 23 syllables against a target of 11 contributes a negative amount (`NegativeLineScore`),
  although the scorer is described as going towards 0.
- `evaluate` never adds the meter score of the first window but divides by the number of
  windows k. The meter average is therefore at most (k - 1)/k, never 1 (`SumsTotals`,
  `AggregateScores`). The rhyme sum is divided by k - 1, the number of pairs.
- Structuredness (4k + 2)/P can exceed 1. For example, P = 9 pieces with k = 2 windows gives 10/9.
- The aligned searches are not anchored, so windows need not chain and may repeat
  (`RepeatedWindow`, `RepeatedWindowText`); when every tercet is followed by a blank line they
  chain on the shared verse (`ChainedWindows`).
- An offset window is the whole match of its pattern: six lines including the first, with no
  newline at the end. The source comment at metrics.py:151 says the first line is not captured.
- Inside `evaluate`, every pair of windows gives seven verses, so `_rhymeness` cannot raise
  there (`PairScores`, `WindowSums`). `evaluate` fails only with zero windows (`IndexError`),
  one window (`ZeroDivisionError`) or a failing n-gram counter.
- With fewer than n - 1 tokens the n-gram loops do not run and the result is 1. With exactly
  n - 1 tokens the division raises.

## Left out

- `metrics/store.py` (directories, files, printing, numpy accumulation) is not part of this model: it is I/O around `evaluate`.
- The `verbose` printing in `evaluate` (metrics.py:29-32, 44-51) and the error print at metrics.py:62-63 are left out. The print is unreachable, because `terzine[0]` has already raised.
- `_perform_final_splits` and `_clump_diphthongs` are the collaborator `Env.finalSplits`. They are heuristic multi-character regex rewrites with no stated property. `SyllabifyBlockErase` assumes of them only that they insert `#` and nothing else.
- `r.is_tronca`, `r.rhyme_score`, `Tokenizer.tokenize`, `Tokenizer.join` and `str.lower` are parameters in `Env`. Their code is not part of this model, and every property holds whatever they do.
- The `(?i)` flag is modelled by `Fold`, which folds only ASCII and Latin-1 capitals. Unicode case folding beyond that (for example `ſ`, `K`) is not modelled.
- `\s` is the fixed set of characters for which `str.isspace()` holds.
- Floating point: every score and ratio is a `real`. Python's `-0.0` in the empty-loop case of the n-gram counters is 1 here, as it is in Python.
- Metrics.EvaluateScores: states the meter average only as `< 1`. The exact bound (k - 1)/k and the structuredness ratio are stated by `AggregateScores`, on the same values.
- Syllabification.TextipPunctuation, Syllabification.TextipSpaces, Syllabification.TextipHashes: state deletion by character counts. The order of the kept characters is stated by their `InOrder` lemmas.
- Syllabification.HiatusMarkErase: the hiatus step is proved only to insert separators. Where it inserts them is defined by `HiatusMatch`, with no further lemma.
- Examples on literal text for `_split_multiple_cons` and `_split_hiatus` are left out. Unrolling the five-step pipeline on a literal is beyond the verifier's budget. `SplitDoubleConsAlle` is the one literal example.
- Terzine.RepeatedWindowText, Terzine.ChainedWindows: take the text through its lines (`Split(text, '\n')` is the given list) rather than as a string literal. Only one text has those lines. Splitting a literal string is beyond the verifier's budget.
- Syllabification.HiatusMatch, Metrics.RhymeScores, Repetitivity.RemainingExcludesNgram: state only the shape of what they return (lengths, slice partition). The characters matched, the word pairs compared and the remaining text are given by their definitions, not by a separate property.
