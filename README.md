# Concordance and sentence-alignment labs in Dafny

This project models two text-analysis libraries written in Python and proves
properties of the model.

- **`lab_2/main.py`, the sentence-alignment scorer.**
  - A text is split into lines. Each non-blank line becomes a sentence of tokens.
  - Two sentences are compared through a dynamic-programming grid.
  - A per-sentence plagiarism score divides the grid's gated bottom-right value
    by the length of the suspicious sentence.
  - The text score averages the sentence scores over aligned sentence pairs.
  - `find_lcs` walks the grid back to recover the shared tokens.
- **`lab_1/main.py`, the concordance extractor.**
  - Tokenizing, stop-word removal and frequency counting.
  - Top-N words.
  - Concordance windows around every occurrence of a word.
  - The adjacent words at the ends of those windows.
  - A concordance sorted by a key token.

Modules:

- `pytext.dfy` (`PyText`): the Python built-ins the code relies on.
  - Clipping slices `s[lo:hi]` and negative indexing `s[-1]`.
  - `list.count`.
  - `str.lower`, `str.strip`, `str.split(sep)` and `str.split()`.
  - String ordering.
  - Subsequences.
- `lcs.dfy` (`Lcs`): `lab_2/main.py`.
  - `fill_lcs_matrix`, `find_lcs`, `calculate_text_plagiarism_score` and
    `tokenize_by_lines` are methods with loops. Each is proved equal to a
    specification function.
  - The rest are functions.
  - Properties are lemmas about those functions.
- `concordance.dfy` (`Concordance`): `lab_1/main.py`.
  - Its reachable code is comprehensions, slicing and sorting, so it is
    modelled with functions and lemmas.

The grid recurrence counts a match only when the row index equals the column
index. So the bottom-right cell is the number of positions at which the two
sentences agree (`Lcs.CellCountsAlignedMatches`), not the length of a longest
common subsequence. The model keeps the recurrence as written.

## Model

| member | source | states |
|---|---|---|
| Lcs.CreateZeroMatrix | lab_2/main.py:40-47 | `[]` when either size is below 1; otherwise exactly `rows` rows of `columns` zeros |
| Lcs.FillLcsMatrix | lab_2/main.py:66-75 | the nested loops produce the grid `LcsMatrix(a, b)`, which is `[]` for an empty sentence; cell (i, j) counts the positions k <= min(i, j) with `a[k] == b[k]` |
| Lcs.LcsMatrix | lab_2/main.py:66-75 | `[]` when either sentence is empty, otherwise an \|a\| by \|b\| grid |
| Lcs.Cell | lab_2/main.py:69-74 | the value one step of the recurrence gives cell (i, j): 0 outside the grid (the unwritten cells index -1 reaches), never above min(i, j) + 1 inside it |
| Lcs.CellCountsAlignedMatches | lab_2/main.py:67-74 | under the recurrence (index -1 reading an unwritten 0), cell (i, j) equals the number of k <= min(i, j) at which the sentences agree |
| Lcs.GridMonotone | lab_2/main.py:67-74 | every row and column of the grid is non-decreasing, and cell (i, j) <= min(i, j) + 1 |
| Lcs.CornerIsZeroOrOne | lab_2/main.py:131-134 | the corner of a filled grid is 0 or 1, so the corner check never rejects a grid that passed the equality check |
| Lcs.FindLcsLength | lab_2/main.py:95-104 | -1 exactly when the threshold is outside [0, 1]; 0 when a sentence is empty; otherwise 0 or the number of aligned agreements, 0 exactly when that number is below threshold times \|b\|; never above min(\|a\|, \|b\|) |
| Lcs.BottomRight | lab_2/main.py:100-101 | the `[-1][-1]` cell holds the number of aligned agreements |
| Lcs.Gate | lab_2/main.py:102-104 | the length is reported as 0 exactly when its ratio to the sentence length is below the threshold, and unchanged otherwise |
| Lcs.RatioBelow | lab_2/main.py:102 | `length / size < threshold` holds exactly when `length < threshold * size` |
| Lcs.ZeroThresholdNeverGates | lab_2/main.py:95-104 | with threshold 0.0 the length is never gated: it is the number of aligned agreements for any two sentences, empty or not |
| Lcs.Step | lab_2/main.py:140-159 | one pass of the loop body strictly decreases row + column, so the loop terminates; the row never grows and the column stays in range |
| Lcs.WalkBack | lab_2/main.py:136-160 | the `while` loop with its append-then-reverse returns the specification walk `Backtrace` |
| Lcs.Backtrace | lab_2/main.py:140-159 | the walk from (r, c) with the column reset: it collects at most r + 1 tokens, one per row it leaves |
| Lcs.FindLcsResult | lab_2/main.py:123-160 | `()` for an empty grid or one that differs from the freshly filled grid; never longer than the first sentence |
| Lcs.FindLcs | lab_2/main.py:123-160 | `()` unless the grid is non-empty and equal to a freshly filled one (so `()` for an empty sentence); every token is in both sentences; the result is a subsequence of the first sentence, hence no longer than it; a non-empty sentence against itself gives itself back |
| Lcs.FindLcsResultProperties | lab_2/main.py:131-160 | the same guarantees for the loop-free specification of `find_lcs` |
| Lcs.BacktraceTokensShared | lab_2/main.py:140-159 | every token the walk collects occurs in both sentences |
| Lcs.BacktraceSubsequenceOfFirst | lab_2/main.py:140-159 | the collected tokens form a subsequence of the first sentence up to the current row |
| Lcs.BacktraceIdentical | lab_2/main.py:140-145 | on two copies of one sentence the walk follows the diagonal and collects the whole prefix |
| Lcs.FindLcsRepeatsFirstToken | lab_2/main.py:153-156 | as written, a = [a, x, a] and b = [a] give [a, a], which is not a subsequence of b |
| Lcs.CommonBacktrace | lab_2/main.py:140-152 | the walk that stops once either index leaves the grid: it collects at most min(r, c) + 1 tokens |
| Lcs.CommonBacktraceInFirst | lab_2/main.py:140-152 | the walk without the column reset collects a subsequence of the first sentence |
| Lcs.CommonBacktraceInSecond | lab_2/main.py:140-152 | the walk without the column reset collects a subsequence of the second sentence |
| Lcs.FindLcsCorrected | lab_2/main.py:131-160 | corrected `find_lcs`: `()` for a grid that is not the filled one; otherwise a common subsequence of both sentences |
| Lcs.FindLcsCorrectedOnRepeat | lab_2/main.py:153-156 | on the input above, the corrected walk collects [a] once |
| Lcs.CalculatePlagiarismScore | lab_2/main.py:173-184 | 0.0 for an empty sentence, checked before the length; -1.0 for a negative length or one above the sentence length; otherwise the score lies in [0, 1] and score times length equals `lcs_length` |
| Lcs.PairScoreBounds | lab_2/main.py:224-226 | the score of one aligned pair (`find_lcs_length` then `calculate_plagiarism_score`): 0.0 for an empty suspicious sentence; -1.0 for every other pair when the threshold is outside [0, 1]; in [0, 1] otherwise |
| Lcs.SelfLcsLength | lab_2/main.py:95-104 | a non-empty sentence against itself has length \|s\| for every threshold in [0, 1] |
| Lcs.PairScoreIdentical | lab_2/main.py:222-226 | a non-empty sentence against itself scores 1.0 |
| Lcs.MeanBounds | lab_2/main.py:228 | a sum in [0, n] divided by n > 0 lies in [0, 1], and is 1 when the sum is n |
| Lcs.ScoreSumBounds | lab_2/main.py:221-227 | the running sum after k pairs lies in [0, k] |
| Lcs.ScoreSumIdentical | lab_2/main.py:221-227 | for a text of non-empty sentences compared with itself, the running sum after k pairs is k |
| Lcs.Aligned | lab_2/main.py:212-219 | the original text truncated, or padded with empty sentences, to exactly n sentences, keeping its own sentences in place |
| Lcs.AlignText | lab_2/main.py:212-219 | the truncation and the padding `while` loop produce `Aligned` |
| Lcs.SumScores | lab_2/main.py:221-227 | the accumulator loop produces the running sum over all pairs |
| Lcs.CalculateTextPlagiarismScore | lab_2/main.py:197-228 | -1.0 when either text is empty; otherwise the mean of the aligned pair scores; in [0, 1] for a threshold in [0, 1]; 1.0 for identical texts of non-empty sentences |
| Lcs.TextScoreBounds | lab_2/main.py:195-228 | the mean of the aligned pair scores lies in [0, 1], and is 1.0 for a text compared with itself |
| Lcs.NonBlankLines | lab_2/main.py:21-25 | the stripped lines that remain: each is non-empty and neither starts nor ends with whitespace, and there are no more of them than lines |
| Lcs.TokenizeEach | lab_2/main.py:26 | one tokenized sentence per line, in order |
| Lcs.TokenizeLines | lab_2/main.py:20-27 | the loop produces the external tokenizer's result for each non-blank stripped line, in line order |
| Lcs.TokenizeByLines | lab_2/main.py:17-28 | exactly one sentence per line of the text whose stripped form is non-empty, in order, each the tokenizer's result on that stripped line |
| Lcs.BlankLineContributesNothing | lab_2/main.py:23-25 | a blank or whitespace-only line adds no sentence |
| Lcs.BlankTextHasNoSentences | lab_2/main.py:21-25 | a text of whitespace-only lines yields no sentence |
| PyText.JoinSplit | lab_2/main.py:21 | `split('\n')` loses nothing: joining the pieces back gives the text |
| PyText.Split | lab_2/main.py:21 | `str.split(sep)`: at least one piece, none containing the separator |
| PyText.Strip | lab_2/main.py:23 | `str.strip()`: the result neither starts nor ends with whitespace |
| PyText.StripSlice | lab_2/main.py:23 | `strip()` keeps a contiguous part of the line |
| PyText.StripCutsSpace | lab_2/main.py:23 | what `strip()` removes on either side is whitespace |
| PyText.StripEmpty | lab_2/main.py:23-25 | a stripped line is empty exactly when the line is all whitespace |
| PyText.Slice | lab_1/main.py:102 | Python's clipping slice: out-of-range and negative bounds are clipped or counted from the end |
| PyText.Lower | lab_1/main.py:20 | `str.lower()`: same length, each character folded by itself, `A`-`Z` to `a`-`z` and everything else kept |
| PyText.Words | lab_1/main.py:20 | `str.split()`: every word is non-empty and holds no whitespace |
| PyText.Count | lab_1/main.py:75 | `list.count`: at most the length, and 0 exactly when the element is absent |
| Concordance.KeepAllowed | lab_1/main.py:20 | `re.sub('[^a-z \n]', '', ...)`: a character occurs in the result exactly when it occurs in the input and is a lower-case letter, a blank or a newline; nothing is added |
| Concordance.Tokenize | lab_1/main.py:18-21 | every token is non-empty and made of the letters a-z only |
| Concordance.TokensAreTheLetters | lab_1/main.py:20 | the tokens, concatenated, are exactly the lower-case letters of the lower-cased text, in order |
| Concordance.DeletedNotSeparator | lab_1/main.py:20 | a character other than a letter, blank or newline is deleted, not treated as a separator: removing it leaves the tokens unchanged |
| Concordance.TokenizeAppendBlank | lab_1/main.py:20 | a blank always separates: the tokens of `x + ' ' + y` are those of x followed by those of y |
| Concordance.TokenizeJoined | lab_1/main.py:15-20 | a text that lower-cases to lower-case words joined by blanks tokenizes to exactly those words |
| Concordance.RemoveStopWords | lab_1/main.py:46-49 | the result is an in-order subsequence of the tokens containing no stop word |
| Concordance.RemoveStopWordsCounts | lab_1/main.py:48 | stop words occur 0 times in the result; every other word occurs exactly as often as in the tokens |
| Concordance.CalculateFrequencies | lab_1/main.py:70-76 | the keys are exactly the distinct tokens (none for no tokens); each value is that token's count, at least 1 |
| Concordance.FrequenciesSumToLength | lab_1/main.py:74-75 | over any duplicate-free listing of the keys, the frequencies sum to the number of tokens |
| Concordance.SortByFrequency | lab_1/main.py:101 | `sorted(..., reverse=True)` by frequency gives a permutation of the entries with non-increasing frequencies |
| Concordance.InsertKeepsDescending | lab_1/main.py:101 | inserting into a descending list keeps it descending |
| Concordance.SortByFrequencyStable | lab_1/main.py:101 | the sort is stable: entries of equal frequency keep their dictionary order |
| Concordance.GetTopNWords | lab_1/main.py:99-102 | for top_n >= 0, min(top_n, \|dict\|) words, so none for top_n = 0; for negative top_n, the slice `[:top_n]` drops words from the end; the words are the sorted entries' words in order; every returned frequency is >= every omitted one |
| Concordance.MostFrequentWordFirst | lab_1/main.py:99-102 | a word strictly more frequent than every other is the single top-1 word |
| Concordance.TopWordExample | lab_1/main.py:93-97 | the docstring's dictionary with top_n = 1 gives `['happy']` |
| Concordance.Occurrences | lab_1/main.py:156 | the positions of the word, strictly ascending, each holding the word, and no occurrence missed |
| Concordance.LeftWindow | lab_1/main.py:166 | one window `tokens[0:ind + 1 + right]`: it starts at the beginning of the text, holds the word, and runs to the end when `right` was raised to the text length |
| Concordance.LeftWindows | lab_1/main.py:166 | one such window per occurrence, in order |
| Concordance.InnerWindow | lab_1/main.py:168 | one window `tokens[ind - left:ind + 1 + right]`: the word sits at position `left` of it, and it runs to the end when `right` was raised to the text length |
| Concordance.InnerWindows | lab_1/main.py:168 | one such window per occurrence, in order |
| Concordance.GetConcordance | lab_1/main.py:144-169 | `[]` for an empty word, a negative size, both sizes 0 or no occurrence; otherwise one window per occurrence, in order, each a contiguous stretch of the tokens around its occurrence that contains the word |
| Concordance.ConcordanceClippedLeft | lab_1/main.py:162-166 | when the first occurrence has fewer than `left` tokens before it, every window is `tokens[0:ind + 1 + right]`, with `right` as raised to the text length when the last occurrence plus `right` passes the end |
| Concordance.ConcordanceClippedRight | lab_1/main.py:162-168 | when the last occurrence plus `right` passes the end, every window runs to the end of the text |
| Concordance.ConcordanceCentred | lab_1/main.py:162-168 | otherwise each window is `tokens[ind - left : ind + 1 + right]`, with the word at position `left` |
| Concordance.GetAdjacentWords | lab_1/main.py:212-222 | one entry per concordance window, in order: one of that window's tokens when either size is 0, two of them otherwise |
| Concordance.Ends | lab_1/main.py:216-221 | the entry for one window: one token when either size is 0, two otherwise, all taken from the window |
| Concordance.AdjacentWordsAtDistance | lab_1/main.py:212-222 | away from the ends of the text, the entries are the tokens left_n before and right_n after each occurrence |
| Concordance.WindowKeys | lab_1/main.py:273-276 | each window's key: its first token for a left sort, else the token after the first occurrence of the word; no keys exactly when some window has none (IndexError) |
| Concordance.IndexOf | lab_1/main.py:276 | `window.index(word)`: the first position holding the word |
| Concordance.SortKey | lab_1/main.py:274-276 | a left sort always has a key; a key is a token of the window; a right sort has none exactly when the word's first occurrence is the last token |
| Concordance.FileByKey | lab_1/main.py:273-276 | the dict comprehension: one entry per key, holding the last window filed under it |
| Concordance.SortKeys | lab_1/main.py:277 | `sorted(dict)`: the distinct keys, strictly ascending |
| Concordance.AscendingListingUnique | lab_1/main.py:277 | a set of keys has only one strictly ascending listing, so the dict's order does not affect the result |
| Concordance.SortedWindows | lab_1/main.py:277 | `[dict_raw[key] for key in sorted(dict_raw)]`: the keys strictly ascend and the last window filed under each key is kept |
| Concordance.ClampedConcordance | lab_1/main.py:264-269 | the concordance taken after the size on the side not used for sorting is clamped: every window holds the word, so its key can be looked up |
| Concordance.SortConcordanceClamp | lab_1/main.py:264-269 | a negative size on the side not used for sorting behaves as 0; a negative size on the sorting side gives `[]` |
| Concordance.SortConcordance | lab_1/main.py:262-278 | `[]` for an empty concordance; IndexError exactly when some window has no key; otherwise every output window is a concordance window, the keys strictly ascend (at most one window per key), and the last window filed under each key is present |

## Left out

- I/O. `read_from_file` and `write_to_file` (lab_1/main.py:225-242) only read and write files.
- Dead code. Everything after the first `return` of a lab_1 function (lab_1/main.py:23-34, 51-59, 78-86, 104-123, 171-194) is unreachable.
- The `pass` stubs of lab_2 (lab_2/main.py:231-288) have no behaviour.
- Lcs.FindLcsLength: the guard `not isinstance(plagiarism_threshold, float)` (lab_2/main.py:95) is not modelled, because the threshold is a `real`. In Python an integer threshold such as 0 or 1 returns -1, so `calculate_text_plagiarism_score(..., 1)` averages -1.0 over every pair with a non-empty suspicious sentence; the model treats it as the threshold 1.0.
- Type guards. The `isinstance` guards on containers, elements, `left_sort` and the context sizes are left out, because Dafny's types already exclude those inputs. So are the guards that reject a `bool` where an `int` is expected, and the `{}` for a non-string first token. Only value checks are modelled: negative, zero, out-of-range and empty inputs.
- The external `tokenizer.tokenize` (lab_2/main.py:5) is not part of this model. `Lcs.TokenizeByLines` takes it as the parameter `tokenize` and assumes nothing about it.
- Floating point. Scores are exact `real`s, so IEEE rounding in the divisions and in the running sum (lab_2/main.py:102, 184, 226-228) is not modelled. The threshold test `length / len < threshold` is compared exactly; `Lcs.RatioBelow` shows it equals `length < threshold * len`.
- Unicode. `str.lower` folds only `A`-`Z`. `strip`/`split()` treat as whitespace the blank, tab, line feed, vertical tab, form feed, carriage return (9-13) and the separators 0x1c-0x1f, as Python's `str.isspace` does for ASCII; Python's other Unicode case mappings and whitespace are not modelled.
- Dictionaries are modelled as follows:
  - The dictionary given to `get_top_n_words` is the sequence of its (word, frequency) entries in iteration order, so the stable sort can be stated.
  - `calculate_frequencies` returns a `map`. The sum-of-frequencies property holds for any duplicate-free listing of its keys.
- The typo `ind_raw = 0` (lab_2/main.py:158) assigns a variable that is never read, so the model omits it.
- Concordance.Tokenize: the docstring example sentence (lab_1/main.py:15-16) is not proved as a literal instance. It follows from `TokenizeJoined`, `TokenizeAppendBlank` and `DeletedNotSeparator`.
- The `sort_concordance` docstring example (lab_1/main.py:254-260) is not proved as a literal instance either. Its ordering and last-wins behaviour are stated for all inputs by `Concordance.SortConcordance`.
- Concordance.GetAdjacentWords: the distance reading of the entries is proved only for windows that are not clipped at either end of the text. Clipped windows are described by their first and last token, as the code returns them.

## Findings

| source | as written | input that shows it | evidently intended | confidence | as-written member | corrected member |
|---|---|---|---|---|---|---|
| lab_2/main.py:153-156 | when the column falls below 0, it is reset to 0 and the row moves up, so the walk compares later rows against `b[0]` again after a diagonal step has already used it | a = ("a", "x", "a"), b = ("a",) with the filled grid: the result is ("a", "a"), longer than b and not a subsequence of it | stop as soon as either index leaves the grid, so the result is a common subsequence of both sentences | not executed | Lcs.FindLcsRepeatsFirstToken | Lcs.FindLcsCorrected |
