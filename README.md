# Word error rate and evaluation dataset preparation, in Dafny

This project models two parts of a toolkit that evaluates transcription and labelling by AI against human work.

The first part scores automatic speech transcripts against manual ones by word error rate, WER = (S + D + I) / N.
- S, D and I are the substitutions, deletions and insertions of a minimum word-level edit alignment.
- N is the number of reference words.

The model follows that scorer step by step:
- Text normalisation: lower-casing, canonical decomposition, removal of combining marks, punctuation to spaces, collapsing of whitespace, stripping.
- Splitting into words.
- Filling of the Levenshtein table, on a two-dimensional array.
- The backtrack that splits the distance into S, D and I, as a loop over that array.
- The per-pair metrics, including the infinite WER of an empty reference.
- Splitting a transcript file into records at blank lines.
- The corpus loop: it pairs records in order, scores every pair, and reports both a macro average (the mean of per-pair rates) and a micro average (pooled errors over pooled reference words).

The second part prepares the dataset of human versus AI call evaluations:
- Every label is cleaned: lower-cased, stripped, accented letters replaced, a few spellings standardised.
- The calls are numbered from 1.
- Every call is spread into eight long-form records, one per metric and evaluator.
- Every metric gets a match flag that is 1 when the two evaluators agree.
- The match flags are totalled per metric and overall.

Modules:
- `Chars`: the character classes and per-character maps normalisation relies on.
- `Strings`: stripping, splitting on whitespace, joining with single spaces.
- `Normalizer`: transcript normalisation and tokenisation.
- `Alignment`: the edit-distance recurrence, the backtrack as a function, and the imperative table filling and backtrack proved against them.
- `Wer`: the metrics of one pair.
- `Corpus`: records of a file and corpus aggregation.
- `Dataset`: label cleaning, the wide and long forms, and the match totals.

Several definitions have an independent partner:
- The edit distance is the source's recurrence. `Alignment.DistIsMinimum` proves it is the least cost of any alignment.
- The backtrack is a function with the source's branch order. The array-based method is proved against it.
- Splitting and joining are proved to invert each other.
- Normalisation is proved idempotent and to produce a canonical shape, and to keep the words of any text apart from case, accents and punctuation.
- Worked examples pin down the normaliser and the backtrack's choice between equally cheap alignments on concrete inputs.

For an empty reference the accuracy is 0.0 even when the hypothesis is empty too (WER 0), as `src/wer_evaluation.py:122-124` sets it; `Wer.MetricsMeaning` states this.

## Model

| member | source | states |
|---|---|---|
| Chars.LowerCharMeaning | src/wer_evaluation.py:35 | Lower-casing a character leaves no upper-case letter, maps whitespace to whitespace and non-whitespace to non-whitespace, and keeps every character that is not upper-case. |
| Chars.DecomposeShape | src/wer_evaluation.py:36 | The canonical decomposition of a character is the character itself, or a base character followed by one combining mark. |
| Chars.FoldedPieces | src/wer_evaluation.py:35-37 | After lower-casing and decomposing a character, every piece that is not a combining mark is a fixed point of lower-casing and decomposition. |
| Chars.WordCharNotSpace | src/wer_evaluation.py:38-39 | A word character is neither whitespace nor a combining mark; the space is whitespace and not a word character. |
| Strings.LeadingSpacesMeaning | src/wer_evaluation.py:40 | The leading run that stripping removes is all whitespace and is maximal: the next character is not whitespace. |
| Strings.TrailingSpacesMeaning | src/wer_evaluation.py:40 | The trailing run that stripping removes is all whitespace and is maximal. |
| Strings.StripMeaning | src/wer_evaluation.py:40 | A stripped string has no whitespace at either end, is a contiguous stretch of the input, and everything of the input outside that stretch is whitespace. |
| Strings.StripStripped | src/wer_evaluation.py:40 | Stripping a string without whitespace at either end returns it unchanged. |
| Strings.WordLengthMeaning | src/wer_evaluation.py:115-116 | The first word runs over non-whitespace characters up to the first whitespace character or the end. |
| Strings.WordsAreWords | src/wer_evaluation.py:115-116 | Splitting on whitespace yields only non-empty pieces free of whitespace. |
| Strings.WordsOfJoin | src/wer_evaluation.py:115-116 | Splitting the single-space join of any list of words gives that list back. |
| Strings.JoinOfWords | src/wer_evaluation.py:115-116 | Joining the words of a single-spaced stripped string with single spaces gives the string back. |
| Normalizer.Normalize | src/wer_evaluation.py:24-42 | The definition of the normaliser: lower-case, decompose, drop combining marks, punctuation to spaces, collapse whitespace, strip. Its meaning is stated by `NormalizeCanonical`, `NormalizeCanonicalFixed`, `NormalizeIdempotent`, `TokensOfFolded` and `NormalizeExample`. |
| Normalizer.Tokens | src/wer_evaluation.py:112-116 | The definition of a transcript's tokens: its normal form split on whitespace. Its meaning is stated by `TokensShape`, `TokensOfFolded` and `TokensOfPlain`. |
| Normalizer.DropMarksMembers | src/wer_evaluation.py:37 | Removing combining marks keeps exactly the characters that are not combining marks. |
| Normalizer.DecomposeAllPieces | src/wer_evaluation.py:36 | Every character of the decomposed text comes from the decomposition of some character of the input. |
| Normalizer.CollapseShape | src/wer_evaluation.py:39 | Collapsing whitespace runs into one space leaves only plain spaces and word characters, never two spaces in a row, and keeps a leading word character in place. |
| Normalizer.CollapseSingleSpaced | src/wer_evaluation.py:39 | Collapsing whitespace changes nothing in text whose whitespace is already single plain spaces. |
| Normalizer.NormalizeCanonical | src/wer_evaluation.py:24-42 | Normalised text consists of settled word characters (fixed by lower-casing and decomposition) separated by single spaces, with no space at either end. |
| Normalizer.NormalizeCanonicalFixed | src/wer_evaluation.py:24-42 | Normalising text that already has the canonical shape returns it unchanged. |
| Normalizer.NormalizeIdempotent | src/wer_evaluation.py:24-42 | Normalising twice gives the same text as normalising once. |
| Normalizer.TokensShape | src/wer_evaluation.py:112-116 | The tokens of a transcript are non-empty, made of settled word characters, and joining them with single spaces gives the normalised text. |
| Normalizer.DecomposeAllAppend | src/wer_evaluation.py:36 | Decomposition works character by character: decomposing a concatenation gives the concatenation of the decompositions. |
| Normalizer.DropMarksAppend | src/wer_evaluation.py:37 | Mark removal works character by character: removing the marks of a concatenation gives the concatenation of the results. |
| Normalizer.WordsCollapse | src/wer_evaluation.py:39 | For any text, collapsing whitespace runs into single spaces leaves its words unchanged. |
| Normalizer.WordsStrip | src/wer_evaluation.py:40 | For any text, stripping leaves its words unchanged. |
| Normalizer.TokensOfFolded | src/wer_evaluation.py:24-42 | For any transcript, the tokens are the whitespace-separated words of the text after lower-casing, decomposition, mark removal and punctuation replacement; collapsing and stripping lose no word. |
| Normalizer.TokensOfPlain | src/wer_evaluation.py:112-116 | Lower-case ASCII words joined by single spaces are exactly the tokens of the joined text. |
| Normalizer.NormalizeExample | src/wer_evaluation.py:24-42 | "Café, ¿Qué Tal?" normalises to "cafe que tal": case, accents and punctuation are removed and the three words are kept. |
| Alignment.Dist | src/wer_evaluation.py:58-74 | The definition of the table's cell for two prefixes, by the source's recurrence. `DistIsMinimum` proves it is the least cost of any alignment, and `FillTable` that the array holds it. |
| Alignment.Trace | src/wer_evaluation.py:81-96 | The definition of the backtrack's path with the source's branch order, including the early stop. `TraceOptimal` proves the path is a complete alignment of cost `Dist`, and `Backtrack` that the loop tallies it. |
| Alignment.Min3 | src/wer_evaluation.py:70-74 | The minimum is at most each of the three values and equal to one of them. |
| Alignment.DistNeighbours | src/wer_evaluation.py:58-74 | Removing the last word of either sequence changes the edit distance by at most one. |
| Alignment.CostAtLeastDist | src/wer_evaluation.py:58-74 | Every alignment of the two word sequences (matches, substitutions, deletions, insertions) costs at least the table's distance. |
| Alignment.AlignsConsumes | src/wer_evaluation.py:76-98 | An alignment accounts for every word: matches + substitutions + deletions equal the reference length, matches + substitutions + insertions the hypothesis length. |
| Alignment.TraceOptimal | src/wer_evaluation.py:76-98 | The path the backtrack follows, in its branch order (match, substitution, deletion, insertion), always reaches the origin; it is an alignment of the two sequences and costs exactly the distance. |
| Alignment.DistIsMinimum | src/wer_evaluation.py:58-98 | The table's distance is the least cost of any alignment, and the backtrack's path attains it. |
| Alignment.TraceSelf | src/wer_evaluation.py:76-98 | A sequence aligned with itself is all matches, at cost 0. |
| Alignment.TraceSelfMatches | src/wer_evaluation.py:81-84 | The backtrack's path for a sequence against itself is one match per word and nothing else. |
| Alignment.TraceMatchLast | src/wer_evaluation.py:82-84 | Equal last words always extend the backtrack's path by a match, whatever the rest. |
| Alignment.TraceExtraLast | src/wer_evaluation.py:76-94 | One extra reference word at the end, different from the last hypothesis word, puts the distance at 1 and is read as a deletion after matching the rest. |
| Alignment.TraceExample | src/wer_evaluation.py:81-98 | Of the two cheapest alignments of "a b" with "c" (both of cost 2), the branch order picks the deletion of "a" and the substitution of "b". |
| Alignment.TraceDeletionExample | src/wer_evaluation.py:81-98 | "the quick brown fox" against "the quick fox" is read as match, match, deletion, match. |
| Alignment.DeletionCounts | src/wer_evaluation.py:81-98 | That path has one deletion, no substitution and no insertion. |
| Alignment.FillTable | src/wer_evaluation.py:55-74 | Builds a fresh (n+1)×(m+1) table whose every cell (i, j) holds the edit distance of the first i reference words and the first j hypothesis words. |
| Alignment.FillRow | src/wer_evaluation.py:65-74 | Given row i-1 of distances and dp[i][0] = i, fills row i with the distances of the first i reference words and leaves every other row unchanged. |
| Alignment.Backtrack | src/wer_evaluation.py:76-98 | The loop over the filled table returns the numbers of substitutions, deletions and insertions on the backtrack's path. |
| Alignment.EditCounts | src/wer_evaluation.py:44-98 | S + D + I equals the edit distance; S + D is at most the reference length and S + I at most the hypothesis length; D - I is the length difference. |
| Wer.Metrics | src/wer_evaluation.py:118-138 | The definition of the metrics record from S, D, I, N and the hypothesis length. Its meaning is stated by `MetricsMeaning`. |
| Wer.PairSpec | src/wer_evaluation.py:100-138 | The definition of one pair's metrics: normalise, split, align, score. `ScorePair` computes it, and `ScoreTokensMeaning`, `ScoreSelf`, `ScoreNormalized` and `PairExample` state its meaning. |
| Wer.AccuracyOf | src/wer_evaluation.py:127 | Accuracy max(0, 1 - WER) is never negative. It is at most 1 for a non-negative rate, equals 1 - WER exactly when WER ≤ 1, and is 1 only for a zero rate. It is 0 for an infinite rate and for any WER of 1 or more. |
| Wer.MetricsMeaning | src/wer_evaluation.py:120-138 | For N > 0: WER × N = S + D + I, WER is 0 exactly without errors and exceeds 1 exactly when the errors outnumber N, and accuracy lies in [0, 1]. For N = 0: WER is infinite exactly when the hypothesis has words, otherwise 0, and accuracy is 0. |
| Wer.ScorePair | src/wer_evaluation.py:100-138 | Scores a pair of raw transcripts: its error total is the word-level edit distance of their token lists, and it reports both token counts. |
| Wer.ScoreTokensMeaning | src/wer_evaluation.py:118-138 | A pair's error total is S + D + I and the edit distance; every reference and hypothesis word is accounted for; two empty lists give no errors. |
| Wer.ScoreSelf | src/wer_evaluation.py:100-138 | A transcript scored against itself has no errors; with at least one word its WER is 0 and its accuracy 1. |
| Wer.ScoreNormalized | src/wer_evaluation.py:112-116 | Scoring already normalised transcripts gives the same metrics as scoring the raw ones. |
| Wer.ScoreTokensExample | src/wer_evaluation.py:100-138 | "a b" scored against "c" gives S = 1, D = 1, I = 0, WER 1 and accuracy 0. |
| Wer.DeletionScore | src/wer_evaluation.py:118-138 | One deletion against a four-word reference gives WER 0.25 and accuracy 0.75. |
| Wer.PairExample | src/wer_evaluation.py:100-138 | End to end, "the quick brown fox" against "the quick fox" gives D = 1, S = I = 0, WER 0.25 and accuracy 0.75. |
| Corpus.Records | src/wer_evaluation.py:150-154 | The definition of a file's transcripts: the blank-line separated pieces, stripped, with the empty ones dropped. Its meaning is stated by `KeepStrippedShape`, `KeepStrippedOne`, `KeepStrippedAppend` and `RecordsOfJoin`. |
| Corpus.Summarize | src/wer_evaluation.py:191-226 | The definition of the corpus summary from the per-pair metrics: pooled S, D, I and N, the macro and micro WER, and both accuracies. Its meaning is stated by `SummaryCounts`, `SummaryRates`, `SummaryAccuracy` and `WeightedMean`. |
| Corpus.CorpusSpec | src/wer_evaluation.py:180-226 | The definition of the corpus result for two record lists: cut to the shorter length, nothing when no pair remains, otherwise the summary of the pairs in order. `ScoreTranscripts` computes it, and `CorpusTotals`, `MeanRateInfinite`, `TotalRateInfinite` and `CorpusSelf` state its meaning. |
| Corpus.Chunks | src/wer_evaluation.py:154 | Splitting at blank lines always yields at least one piece. |
| Corpus.KeepStrippedShape | src/wer_evaluation.py:154 | Every record is non-empty, has no whitespace at either end, and is the strip of one of the file's pieces. |
| Corpus.KeepStrippedOne | src/wer_evaluation.py:154 | A single piece yields its strip as one record, or no record when the strip is empty. |
| Corpus.KeepStrippedAppend | src/wer_evaluation.py:154 | The records of two runs of pieces are the records of the first followed by those of the second, so records keep file order. |
| Corpus.JoinOfChunks | src/wer_evaluation.py:154 | Joining the pieces of a split with blank lines rebuilds the file exactly. |
| Corpus.ChunksOfJoin | src/wer_evaluation.py:154 | Splitting the blank-line join of pieces that hold no blank line (and do not end in a newline) gives the pieces back. |
| Corpus.KeepStrippedFixed | src/wer_evaluation.py:154 | A list of non-empty stripped records survives the strip-and-drop step unchanged. |
| Corpus.RecordsOfJoin | src/wer_evaluation.py:150-156 | Writing non-empty stripped records without a blank line inside them (no two consecutive newlines), separated by blank lines, and reading the file back gives the same records. |
| Corpus.CorpusWer | src/wer_evaluation.py:165-226 | Scoring two files' contents gives the corpus result of their record lists. |
| Corpus.ScoreTranscripts | src/wer_evaluation.py:180-226 | Cuts the longer record list to the shorter length and returns nothing when no pair remains, otherwise the summary of the pairs' metrics in order. |
| Corpus.ScoreAll | src/wer_evaluation.py:191-207 | The loop returns the metrics of every pair in order, together with the running sums of S, D, I and N over them. |
| Corpus.PairConsistent | src/wer_evaluation.py:100-138 | Every pair's metrics are consistent: errors = S + D + I = edit distance, accuracy in [0, 1], WER infinite exactly for an empty reference against a non-empty hypothesis, WER × N = errors when N > 0. |
| Corpus.SummaryCounts | src/wer_evaluation.py:200-224 | The summary counts every result, keeps them in order, and its error total is the sum of the pairs' errors and of its S, D and I totals. |
| Corpus.SummaryRates | src/wer_evaluation.py:209-210 | The micro WER is infinite exactly when every reference is empty; the macro WER is infinite exactly when some pair's WER is. |
| Corpus.SummaryAccuracy | src/wer_evaluation.py:211-212 | Both the mean accuracy and the pooled accuracy lie in [0, 1]. |
| Corpus.SumRateInfinite | src/wer_evaluation.py:209 | The sum of the rates is infinite exactly when one of them is. |
| Corpus.TotalZero | src/wer_evaluation.py:200-203 | A pooled counter is zero exactly when every pair's counter is zero. |
| Corpus.CorpusTotals | src/wer_evaluation.py:180-226 | There is a result exactly when at least one pair is formed; it holds one entry per pair, each the metrics of that pair with the edit distance as error total, and its error total is the sum of them and of its S, D and I totals. |
| Corpus.MeanRateInfinite | src/wer_evaluation.py:209 | The macro WER is infinite exactly when some paired manual transcript has no words while its automatic one has some. |
| Corpus.TotalRateInfinite | src/wer_evaluation.py:210 | The micro WER is infinite exactly when every paired manual transcript is without words. |
| Corpus.CorpusAccuracyBounds | src/wer_evaluation.py:211-212 | Both corpus accuracies lie in [0, 1]. |
| Corpus.WeightedMean | src/wer_evaluation.py:209-210 | When every reference has words, the pooled WER is the mean of the per-pair rates weighted by reference length. |
| Corpus.MicroIsWeightedMacro | src/wer_evaluation.py:209-210 | For transcript files whose paired manual transcripts all have words, the micro WER is the reference-length weighted mean of the per-pair WERs. |
| Corpus.CorpusSelf | src/wer_evaluation.py:165-226 | A non-empty list of transcripts with words, scored against itself, has no errors, both WERs 0 and both accuracies 1. |
| Corpus.PerfectSummary | src/wer_evaluation.py:209-212 | Aggregating perfect pairs gives zero errors, both WERs 0 and both accuracies 1. |
| Dataset.Clean | src/dataset_preparation.py:9-33 | The definition of label cleaning. `CleanText` computes it, and `CleanShape`, `CleanFixed`, `CleanIdempotent`, `CleanEmpata` and `CleanDesinteres` state its meaning. |
| Dataset.CleanText | src/dataset_preparation.py:5-33 | Cleans one cell, applying the replacement table entry by entry, and yields the cleaned label. |
| Dataset.ReplaceEachIsUnaccent | src/dataset_preparation.py:14-18 | Applying the six replacements one after the other equals replacing each accented letter by its base letter at once, because no replacement creates a letter a later one replaces. |
| Dataset.StandardizeEffect | src/dataset_preparation.py:21-33 | On accent-free text the accented keys of the table can never match; only 'profesionalismo empatico' and 'empata' change the label, every other label is kept. |
| Dataset.CleanShape | src/dataset_preparation.py:5-33 | A missing or empty cell gives ""; every cleaned label has no upper-case letter, none of á é í ó ú ñ, and no whitespace at either end. |
| Dataset.CleanFixed | src/dataset_preparation.py:5-33 | A clean label that standardisation keeps is its own cleaning. |
| Dataset.CleanIdempotent | src/dataset_preparation.py:5-33 | Cleaning a cleaned label changes nothing. |
| Dataset.CleanEmpata | src/dataset_preparation.py:9-33 | " Empata " cleans to "empatia". |
| Dataset.CleanDesinteres | src/dataset_preparation.py:9-33 | "Desinterés" cleans to "desinteres" through the accent replacement, not through its accented key. |
| Dataset.CleanCells | src/dataset_preparation.py:53-55 | Every one of the eight label cells of a row is cleaned. |
| Dataset.Transform | src/dataset_preparation.py:51-93 | Returns the wide form of the cleaned rows, numbered from 1 with their match flags, and their long form. |
| Dataset.Reshape | src/dataset_preparation.py:59-84 | The nested loop appends the long form of the rows. |
| Dataset.LongForm | src/dataset_preparation.py:59-84 | The definition of the long form: eight records per call, a human record then an AI record for each metric. `Reshape` builds it, and `LongFormAt` states its layout. |
| Dataset.WideForm | src/dataset_preparation.py:51-91 | The definition of the wide form: the cleaned rows numbered from 1, with one match flag per metric. Its meaning is stated by `WideFormMeaning` and `MatchFlagMeaning`. |
| Dataset.LongFormAt | src/dataset_preparation.py:59-84 | The long form holds eight records per row in row order; row i contributes, for the k-th metric, the human record at 8i + 2k and the AI record right after it, both numbered i + 1 and carrying the label of the matching column. |
| Dataset.WideFormMeaning | src/dataset_preparation.py:51-91 | The wide form keeps the rows in order, numbers them 1 to n, and sets a metric's flag to 1 exactly when the human and AI labels agree and to 0 otherwise. |
| Dataset.MatchFlagMeaning | src/dataset_preparation.py:87-91 | A match flag is 1 exactly when the two cleaned labels are equal and 0 exactly when they differ. |
| Dataset.MatchCount | src/dataset_preparation.py:113-116 | The definition of a metric's match total, the sum of its flag over the wide form. Its bounds are stated by `MatchCountBound`. |
| Dataset.TotalMatches | src/dataset_preparation.py:121-123 | The definition of the global match total over all four metrics. Its bounds are stated by `TotalMatchesBound` and `WideFormTotals`. |
| Dataset.MatchCountBound | src/dataset_preparation.py:113-117 | With 0/1 flags, a metric's match count is at most the number of rows, and equals it exactly when every row agrees on that metric. |
| Dataset.TotalMatchesBound | src/dataset_preparation.py:121-124 | With 0/1 flags, the global match total is at most four times the number of rows, and reaches it exactly when every row agrees on every metric. |
| Dataset.WideFormTotals | src/dataset_preparation.py:112-124 | The wide form's flags are 0 or 1, every metric's match count is at most the number of rows, and the global total is at most the number of evaluations. |

## Left out

- Unicode: lower-casing, canonical decomposition, the combining-mark category, `\w` and `\s` are exact tables for ASCII and Latin-1. Above Latin-1 they are approximations, because the Unicode database is not reproduced. Lower-casing is one character to one character.
- File reading: `CorpusWer` takes the two files' contents as the text that reading the file in text mode returns, so every `"\r\n"` and every lone `"\r"` has already become `"\n"`; `Records` splits only at `"\n\n"`. A missing or unreadable file, which the source reports and treats as holding no transcripts, corresponds to empty content, and empty content yields no records.
- Console output is not modelled: the per-pair progress lines, the warning when the two files hold different numbers of transcripts, and the report printing.
- Floating point: WERs and accuracies are exact rationals rather than double-precision floats. An infinite WER is a separate `Infinite` value instead of IEEE infinity, and `np.mean` of a list containing it is `Infinite`.
- The returned DP table of the edit-distance function is not part of `EditCounts`' result; `FillTable` and `Filled` describe it.
- The backtrack's final `else: break` branch is modelled (the path may stop early), but `TraceOptimal` proves that with a table built by the recurrence it is never taken before the origin.
- src/classification_metrics.py is not part of this model.
- Dataset: reading the Excel sheet, its header row and the column renaming are not modelled. The model takes the eight label columns of every row as input.
- Dataset: cells holding numbers or other non-text values, which the source converts with `str`, are not modelled. A cell is either missing or text.
- Dataset: the percentages in the summary (matches / total × 100, global precision) are only printed and are not modelled. Nor are the per-metric lists of distinct values, or the distinct-ID count.
- Dataset: saving the datasets to files is not modelled.
