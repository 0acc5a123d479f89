# Translation RAG service: prompt builder and stammering detector

This project models the two deterministic engines of a small translation
service, and proves properties of the model.

- **Prompt builder** (`build_prompt`). The service stores translation examples
  (`Pair`: source language, target language, sentence, translation). Each
  example has a similarity score against the query sentence. The examples are
  ranked by a stable sort on descending score. Those with a positive score are
  kept, at most `k` of them. The prompt is then rendered line by line:
  - a two-line fallback when there is nothing to show;
  - otherwise a few-shot layout listing the kept examples best first.

  The lines are joined with a single line feed.
- **Stammering detector** (`normalize`, `max_consecutive_repetition`,
  `detect_stammering`). Both sentences are normalised into word tokens. A
  translation with no tokens is never flagged. Otherwise it is flagged when any
  of these holds:
  - character flooding in the raw lower-cased text;
  - a run of equal tokens that is at least four long and longer than any run in the source;
  - a mixed trigram occurring three or more times;
  - low lexical diversity in a long output.

Files:

- `text.dfy` (module `Text`): `Join`, which is `sep.join(parts)`.
- `ranking.dfy` (module `Ranking`): the ranking over candidate positions.
  - `Outranks` means a higher score, or an equal score at an earlier position.
  - `Rank` is a stable insertion sort.
  - `IsRanking` is its declarative partner.
  - `Positive` is the `score > 0` filter.
  - `Take` is the `[:k]` cap.
  - `Kept` combines the three.
- `prompt.dfy` (module `Prompt`): the `Pair` datatype, the prompt lines as
  specification functions (`PromptLines`, `PromptText`), and `BuildPrompt`, an
  imperative method that appends lines in a loop as the source does.
  `SplitLines` (`str.split("\n")`) is the inverse partner of joining.
- `stammering.dfy` (module `Stammering`): the detector as pure functions.
  - `Normalize`, `MaxRun`, `Flooded`, `PhraseRepeated`, `LowDiversity`, and
    `Verdict` / `DetectStammering` model the source.
  - `RunAt`, `FloodAt`, `LongerRun`, `RepeatedPhrase`, `WordChars` and
    `Concat` are independent reference definitions, which the lemmas connect to
    the operations.

Modelling choices:

- **Scores are a parameter.** `scores: seq<real>` holds one score per pair.
  - No sign is required: the filter is modelled for any real score.
  - Candidates are identified by position, so the stability of the sort can be
    stated even for equal pairs with equal scores.
- **Character classes.**
  - Whitespace is exactly the set of characters Python treats as whitespace in
    `str.split()` and in `re`'s `\s`.
  - Word characters (`\w`) and lower-casing are ASCII only.
- **The ratio test.** `len(set(w)) / len(w) < 0.4` is computed on exact reals.
  `Stammering.LowDiversityIff` proves that it is the integer test
  `5 * distinct < 2 * total`.
- **Docstring example against the code.** The docstring of
  `detect_stammering` (app/stammering.py:30) gives `'sooooo'` as an example of
  character flooding. That word has five equal letters, and the pattern
  `(.)\1{5,}` needs six in a row, so the code does not flag it. The model
  follows the code: `Stammering.DocstringElongationPasses` proves that
  `"sooooo"` is not flagged whatever the source, and
  `Stammering.SixLettersFlagged` proves that `"soooooo"` is.

## Model

| member | source | states |
|---|---|---|
| Text.Join | app/similarity.py:84 | Definition of `"\n".join(prompt)`: the lines with one separator between neighbours and none at either end; `Text.JoinSnoc` and `Prompt.SplitJoin` state it. |
| Text.JoinSnoc | app/similarity.py:84 | The joined text ends with a separator followed by the last line, with nothing after it. |
| Ranking.OutranksStrict | app/similarity.py:55-59 | The ranking order is asymmetric and total on distinct positions: ties are broken by input position. |
| Ranking.Insert | app/similarity.py:55-59 | One insertion step of the stable sort adds exactly the new position, and positions stay in range. |
| Ranking.InsertOrdered | app/similarity.py:55-59 | Inserting a new position into an ordered list keeps it ordered. |
| Ranking.RankPrefix | app/similarity.py:55-59 | Sorting the first `n` candidates lists exactly the positions `0 .. n-1`, once each. |
| Ranking.RankPrefixOrdered | app/similarity.py:55-59 | The partial sort is in descending score order, with ties in input order. |
| Ranking.Rank | app/similarity.py:55-59 | `sorted(zip(scores, pairs), key=lambda x: x[0], reverse=True)`, sorting on the score alone, is a ranking: a permutation of all positions, by non-increasing score, with equal scores in input order. |
| Ranking.OrderedCard | app/similarity.py:55-59 | A strictly ordered list has no duplicates. |
| Ranking.OrderedUnique | app/similarity.py:55-59 | Two stable descending orders of the same positions are equal. |
| Ranking.RankUnique | app/similarity.py:55-59 | Every list meeting the declarative ranking definition equals `Rank`, so any stable descending sort gives this order. |
| Ranking.Positive | app/similarity.py:61 | The filter keeps exactly the listed positions whose score is `> 0`, and no more entries than it is given. |
| Ranking.PositiveOrdered | app/similarity.py:61 | Filtering keeps the ranked order. |
| Ranking.Take | app/similarity.py:61 | `s[:k]` has `min(k, len(s))` entries and is a prefix of `s`. |
| Ranking.Kept | app/similarity.py:55-61 | Definition of the positions behind `top_pairs`: ranked, filtered on `score > 0`, cut to `k`; its own contract says every position is in range, and `Ranking.KeptPositiveOrdered`, `Ranking.KeptCount`, `Ranking.KeptOutranksDropped` and `Ranking.KeptEmpty` state the rest. |
| Ranking.KeptPositiveOrdered | app/similarity.py:61 | Every kept candidate has a positive score, and the kept list is in ranked order. |
| Ranking.KeptCount | app/similarity.py:61 | The number of kept candidates is `min(k, number of positive scores)`. |
| Ranking.KeptOutranksDropped | app/similarity.py:55-61 | Every kept candidate outranks every positive-score candidate that the cap dropped. |
| Ranking.KeptEmpty | app/similarity.py:61-64 | Nothing is kept if and only if `k == 0` or no score is positive. |
| Ranking.TieRank | app/similarity.py:55-59 | For scores 0.5, 0.9, 0.0, 0.5 the ranking is positions 1, 0, 3, 2: the two 0.5 scores keep their input order. |
| Ranking.TiePositive | app/similarity.py:61 | For the same scores, the filter drops the zero score and leaves 1, 0, 3. |
| Ranking.TieKept | app/similarity.py:61 | For the same scores, a cap of two keeps positions 1 and 0. |
| Prompt.PromptLines | app/similarity.py:38-82 | Definition of the lines `build_prompt` joins: the fallback pair when there are no pairs or no positive score, the few-shot lines otherwise; `Prompt.FallbackIff`, `Prompt.NoPositiveFallback` and `Prompt.FewShotLayout` state it. |
| Prompt.PromptText | app/similarity.py:38-84 | Definition of the returned text: `PromptLines` joined by line feeds; `Prompt.BuildPrompt`, `Prompt.EndsWithQuery` and `Prompt.PromptSplits` state it. |
| Prompt.FallbackLines | app/similarity.py:40-43 | Definition of the two fallback lines; `Prompt.EmptyPairsFallback` and `Prompt.FallbackIff` state it. |
| Prompt.FewShotLines | app/similarity.py:70-82 | Definition of the few-shot lines: header, blank, `Examples:`, the example blocks, `Sentence to translate:`, the query line; `Prompt.FewShotLinesAt` and `Prompt.FewShotLayout` state it. |
| Prompt.ExampleLines | app/similarity.py:76-79 | Definition of the three lines the loop appends per pair; `Prompt.ExampleLinesAt` and `Prompt.ExampleLinesStep` state it. |
| Prompt.BuildPrompt | app/similarity.py:38-84 | The text built by the early returns, the header lines, the per-example loop and the final join is exactly `PromptText`. |
| Prompt.ExampleLinesStep | app/similarity.py:76-79 | One more loop iteration extends the example lines by that example's three lines. |
| Prompt.FewShotText | app/similarity.py:61-84 | With pairs and a non-empty `top_pairs`, the prompt is the few-shot lines joined by line feeds. |
| Prompt.SplitJoin | app/similarity.py:84 | Splitting the `"\n"`-joined lines at line feeds gives the lines back, if no line holds a line feed. |
| Prompt.ExampleLinesAt | app/similarity.py:76-79 | Each example contributes three lines in order: `"{src}: {sentence}"`, `"{tgt}: {translation}"`, `""`. |
| Prompt.TopPairs | app/similarity.py:61 | Definition of `top_pairs`: the pairs at `Ranking.Kept` positions; `Prompt.TopPairsSpec` and `Prompt.TopPairsStored` state it. |
| Prompt.TopPairsSpec | app/similarity.py:61 | `top_pairs` holds `min(k, number of positive scores)` pairs: the pairs at the kept positions, in ranked order, each with a positive score. |
| Prompt.TopPairsStored | app/similarity.py:61 | Every pair in `top_pairs` is one of the stored pairs. |
| Prompt.EmptyPairsFallback | app/similarity.py:39-43 | With no pairs the prompt is exactly `"Translate the following sentence from {src} to {tgt}:\n{src}: {query}"`, with a colon. |
| Prompt.FallbackIff | app/similarity.py:39-68 | The fallback form is used if and only if there are no pairs, `k == 0`, or no score is positive. |
| Prompt.NoPositiveFallback | app/similarity.py:63-68 | With pairs but no positive score, the text is identical to the text for no pairs. |
| Prompt.FewShotLinesAt | app/similarity.py:70-82 | The few-shot lines for `m` examples are the three header lines, three lines per example in order, and the two closing lines: `5 + 3m` in all. |
| Prompt.FewShotLayout | app/similarity.py:70-82 | The few-shot layout is: the header ending in `.`, `""`, `Examples:`, three lines per kept example in ranked order, `Sentence to translate:`, and the query line. That is `5 + 3m` lines with `1 <= m <= k`. |
| Prompt.EndsWithQuery | app/similarity.py:82-84 | In both forms the text ends with `"\n{src}: {query}"`, with no trailing line feed. |
| Prompt.DefaultPromptSize | app/similarity.py:19 | With the default cap `k = 4`, at most four examples are shown and the prompt has at most 17 lines. |
| Prompt.FixedLinesNoBreaks | app/similarity.py:40-82 | The fixed lines of both forms (the two headers, `Examples:`, `Sentence to translate:` and the query line) hold no line feed when the inputs hold none. |
| Prompt.ExampleLinesNoBreaks | app/similarity.py:76-79 | The example lines hold no line feed when the language names and the examples hold none. |
| Prompt.PromptSplits | app/similarity.py:70-84 | When no input holds a line feed, the prompt text splits back into exactly its lines. |
| Stammering.Lower | app/stammering.py:15 | Definition of `text.lower()` character by character; `Stammering.LowerChar`, `Stammering.LowerNoUpper` and `Stammering.NormalizeLower` state it. |
| Stammering.LowerChar | app/stammering.py:15 | Lower-casing one character leaves no upper-case letter, maps `A`-`Z` to `a`-`z`, and keeps every other character and its class. |
| Stammering.LowerNoUpper | app/stammering.py:15 | Lower-casing text without upper-case letters changes nothing. |
| Stammering.StripPunctuation | app/stammering.py:16 | The substitution keeps only characters of the input that are word characters or whitespace. |
| Stammering.StripChar | app/stammering.py:16 | On one character, the substitution keeps it exactly when it is a word or whitespace character. |
| Stammering.StripAppend | app/stammering.py:16 | The substitution works piecewise: on `a + b` it gives its result on `a` followed by its result on `b`. With `StripChar` this fixes its result on every input. |
| Stammering.StripKeeps | app/stammering.py:16 | Text made only of word characters and whitespace is unchanged by the substitution. |
| Stammering.RemoveSpacesStrip | app/stammering.py:16 | After the substitution, the non-whitespace characters are exactly the word characters of the input, in order. |
| Stammering.WordLength | app/stammering.py:17 | The leading word runs up to the first whitespace character or the end. |
| Stammering.Split | app/stammering.py:17 | `str.split()` yields non-empty words made of the input's non-whitespace characters. |
| Stammering.WordLengthPrefix | app/stammering.py:17 | A leading word that is followed by whitespace or the end keeps its length when text is appended. |
| Stammering.SplitAtSpace | app/stammering.py:17 | `str.split()` cuts at every whitespace character: the words of `a + c + b`, for whitespace `c`, are the words of `a` followed by the words of `b`. With `SplitWord` this fixes where every word boundary falls. |
| Stammering.SplitWord | app/stammering.py:17 | A non-empty run without whitespace is one word, alone or before a space. |
| Stammering.SplitUnwords | app/stammering.py:17 | Splitting non-empty, whitespace-free words joined by single spaces gives the words back. |
| Stammering.ConcatSplit | app/stammering.py:17 | The words of `str.split()`, written one after another, are the non-whitespace characters of the input. |
| Stammering.Normalize | app/stammering.py:13-17 | Every token is non-empty and consists of lower-case word characters only, so it holds no whitespace or punctuation. |
| Stammering.NormalizeLower | app/stammering.py:13-17 | Upper-case input gives the same tokens as its lower-cased form. |
| Stammering.NormalizeContents | app/stammering.py:13-17 | The tokens, written one after another, are exactly the word characters of the lower-cased text: only punctuation and whitespace are lost. |
| Stammering.NormalizeUnwords | app/stammering.py:13-17 | Well-formed tokens joined by single spaces normalise to themselves. |
| Stammering.LeadRun | app/stammering.py:22 | The first `groupby` group is a run of elements equal to the first one, and the element after it differs. |
| Stammering.MaxRun | app/stammering.py:20-22 | The longest group is at most the length of the input, and it is 0 exactly for the empty input. |
| Stammering.MaxRunBound | app/stammering.py:20-22 | No run of equal adjacent elements is longer than `MaxRun`. |
| Stammering.MaxRunAttained | app/stammering.py:20-22 | On non-empty input, some run of equal adjacent elements is exactly `MaxRun` long. |
| Stammering.Flooded | app/stammering.py:49 | Definition of the flooding search on the lower-cased translation; `Stammering.FloodedIff` states it. |
| Stammering.FloodedIff | app/stammering.py:49-50 | The search finds flooding if and only if, somewhere, a character other than a line feed is followed by five copies of itself. |
| Stammering.AmplifiedIff | app/stammering.py:52-57 | `tgt_rep >= 4 and tgt_rep > src_rep` holds if and only if the translation has a run of at least four equal tokens that is longer than every run in the source. |
| Stammering.Trigrams | app/stammering.py:60 | Definition of the list of consecutive token triples; `Stammering.PhraseWitness` and `Stammering.RepeatedWitness` state it. |
| Stammering.PhraseRepeated | app/stammering.py:60-63 | Definition of the trigram test: some trigram counted at least three times holds two distinct tokens; `Stammering.PhraseRepeatedIff` states it. |
| Stammering.Tally | app/stammering.py:61 | The counter's keys are exactly the trigrams present, each mapped to its number of occurrences. |
| Stammering.MixedIff | app/stammering.py:63 | `len(set(tri)) > 1` holds if and only if the trigram has two different neighbouring tokens. |
| Stammering.CountThree | app/stammering.py:61-63 | A count of at least three means the trigram occurs at three distinct positions, and conversely. |
| Stammering.PhraseWitness | app/stammering.py:59-64 | When the counter test fires, some mixed trigram starts at three distinct token positions. |
| Stammering.RepeatedWitness | app/stammering.py:59-64 | When a mixed trigram starts at three distinct positions, the counter test fires. |
| Stammering.PhraseRepeatedIff | app/stammering.py:59-64 | The counter test holds if and only if some trigram of at least two distinct tokens starts at three different positions. |
| Stammering.ShortHasNoPhrase | app/stammering.py:60 | With fewer than three tokens there is no repeated phrase. |
| Stammering.LowDiversity | app/stammering.py:67-68 | Definition of the diversity test: at least eight tokens and a distinct-to-total ratio below 0.4; `Stammering.LowDiversityIff` states it. |
| Stammering.RatioBelow | app/stammering.py:67-68 | For a positive total, `distinct / total < 0.4` if and only if `5 * distinct < 2 * total`. |
| Stammering.LowDiversityIff | app/stammering.py:67-68 | The diversity test holds if and only if there are at least 8 tokens and `5 * distinct < 2 * total`. |
| Stammering.DetectStammering | app/stammering.py:25-71 | Definition of `detect_stammering`: normalize both sentences and apply `Verdict`; `Stammering.DetectIff` states it. |
| Stammering.Verdict | app/stammering.py:42-71 | Definition of the four heuristics in the source's order after the empty-translation exit; `Stammering.DetectIff`, `Stammering.RunFlags`, `Stammering.FloodFlags`, `Stammering.PhraseFlags` and `Stammering.QuietVerdict` state it. |
| Stammering.DetectIff | app/stammering.py:42-71 | The verdict holds if and only if the translation has tokens and one of the four heuristics holds, each stated by its reference definition. |
| Stammering.EmptyTranslation | app/stammering.py:45-46 | A translation without tokens is never flagged, whatever the source. |
| Stammering.SourceOnlyThroughRun | app/stammering.py:52-57 | The source matters only through its longest run: a source with a longer run can only clear a verdict. |
| Stammering.CaseInsensitive | app/stammering.py:42-50 | Lower-casing either sentence does not change the verdict. |
| Stammering.RunFlags | app/stammering.py:55-57 | Run amplification flags the translation, whatever its raw text. |
| Stammering.FloodFlags | app/stammering.py:45-50 | Flooding flags a translation that has tokens, whatever the source. |
| Stammering.PhraseFlags | app/stammering.py:59-64 | A repeated phrase flags the translation, whatever its raw text and the source. |
| Stammering.QuietVerdict | app/stammering.py:45-71 | A translation of at most two tokens, with no flooding and no run of four, is not flagged. |
| Stammering.EmptyPasses | app/stammering.py:45-46 | Two empty sentences are not flagged. |
| Stammering.PunctuationOnlyPasses | app/stammering.py:45-50 | `"!!!!!!"` floods the raw text but leaves no token, and the token guard comes first, so it is not flagged. |
| Stammering.RepeatedWordSource | app/stammering.py:13-17 | `"the cat sat"` normalises to three tokens. |
| Stammering.RepeatedWordTokens | app/stammering.py:13-17 | `"the the the the cat sat"` normalises to six tokens. |
| Stammering.RepeatedWordRuns | app/stammering.py:52-53 | The longest runs of these token lists are 1 and 4. |
| Stammering.RepeatedWordFlagged | app/stammering.py:52-57 | Against the source `"the cat sat"`, the translation `"the the the the cat sat"` is flagged: a run of four against a run of one. |
| Stammering.PhraseLoopFlagged | app/stammering.py:59-64 | `"a b a b a b a b"` is flagged for any source: the trigram `(a, b, a)` occurs three times. |
| Stammering.PhraseLoopTokens | app/stammering.py:13-17 | `"a b a b a b a b"` normalises to eight tokens. |
| Stammering.PhraseLoopRepeated | app/stammering.py:60-64 | The counter test fires on these eight tokens. |
| Stammering.PlainSourceTokens | app/stammering.py:13-17 | `"hello there"` normalises to two tokens. |
| Stammering.PlainTranslationTokens | app/stammering.py:13-17 | `"hi there"` normalises to two tokens. |
| Stammering.PlainTranslationUnflooded | app/stammering.py:49 | `"hi there"` has no flooding. |
| Stammering.PlainTranslationPasses | app/stammering.py:42-71 | `"hi there"` as a translation of `"hello there"` is not flagged. |
| Stammering.ShortElongationTokens | app/stammering.py:13-17 | `"soooo good"` normalises to two tokens. |
| Stammering.ShortElongationUnflooded | app/stammering.py:49 | Four equal letters in `"soooo good"` are not flooding. |
| Stammering.ShortElongationPasses | app/stammering.py:48-71 | `"soooo good"` is not flagged for any source. |
| Stammering.DocstringElongationTokens | app/stammering.py:13-17 | `"sooooo"` normalises to one token. |
| Stammering.DocstringElongationUnflooded | app/stammering.py:30 | The docstring's flooding example `sooooo` has five equal letters and does not match the pattern. |
| Stammering.DocstringElongationPasses | app/stammering.py:30 | `"sooooo"` is not flagged for any source, although the docstring names it as flooding. |
| Stammering.SixLettersTokens | app/stammering.py:13-17 | `"soooooo"` normalises to one token. |
| Stammering.SixLettersFlooded | app/stammering.py:49 | Six equal letters in a row are flooding. |
| Stammering.SixLettersFlagged | app/stammering.py:48-50 | `"soooooo"` is flagged for any source. |

## Left out

- TF-IDF vectorisation and cosine similarity are not modelled: they are a foreign library call over floating point. The scores are a parameter. When every sentence lacks a usable token, the vectoriser raises an error on its empty vocabulary; this error path is not modelled.
- Scores are exact reals: floating-point rounding and NaN scores are not modelled.
- `k` is a natural number. Python slicing with a negative `k` is not modelled.
- `BuildPrompt` appends to a list in place in the source. The model reassigns a sequence of lines.
- The `source_language` and `target_language` fields of a stored pair are carried in `Pair` but, as in the source, not used by the prompt.
- Full Unicode behaviour of `str.lower()` and of `\w` is not modelled. Lower-casing and word characters are ASCII only, so a non-ASCII letter is treated as punctuation and removed. As a consequence, a translation written entirely in a non-Latin script has no tokens in the model and is never flagged, while the source tokenises such text and can flag it.
- The detector's ratio is computed on exact reals. Rounding of the float division is not modelled.
- SQLite storage (`app/storage.py`), the HTTP routes (`app/main.py`), the command-line client (`client.py`) and the request/response schemas (`app/schemas.py`) are I/O or validation layers. They are not part of this model, apart from the four-field shape of a stored pair.
