# YouTube comment preparation, modelled in Dafny

This project models the deterministic text rules that the YouTube comment
analysis repository applies to every comment before analysis.

- **Cleaners.** Emoji translation, emoticon translation, blanking of
  non-alphabetic characters, and stopword removal. The repository defines them
  twice, word for word: in `scripts/data_preparation.py` (lines 77-116) and in
  `src/youtube_analysis/cleanutils.py` (lines 14-52). Module `CleanUtils` models
  both copies once. Its table rows cite the package copy.
- **Sentiment label.** `get_sent_label` maps a VADER compound score to
  positive, neutral or negative (module `Sentiment`).
- **Features.** `has_emojis` and `has_emoticons` are presence probes over the
  emot lexicons (module `Features`).
- **Preparation step.** `main` adds the derived columns to the comments table,
  one after another (module `DataPreparation`).

Python's own string and list operations are written out in module `PyStr`.
- `sub in s` is `Contains`. The empty string is "in" every string, as in Python.
- `s.replace(old, new)` is `ReplaceAll`: left to right, non-overlapping. It
  includes Python's behaviour for an empty `old`.
- `sep.join(xs)` is `Join`.
- `xs.index(x)` is `FirstIndex`.

The third-party pieces are passed in as values (module `Toolkit`).
- `Nlp` bundles six deterministic functions:
  - `removeHtml`: BeautifulSoup's text extraction.
  - `tokenize`: nltk's `word_tokenize`.
  - `isAlpha`: `str.isalpha` on one character.
  - `lower`: `str.lower`.
  - `lemmatize`: WordNet's word lemmatizer.
  - `compound`: VADER's compound score.
- `Lexicons` holds three data values:
  - emot's `UNICODE_EMOJI` and `EMOTICONS_EMO`, as sequences of (key, meaning)
    pairs in dictionary iteration order;
  - nltk's English stopwords, as a set.

Each loop of the source is a Dafny method with a `for` loop. Its postcondition
equates the result with a specification function. The source's guarantees are
lemmas about those functions.

- `filter_text_noise` loops over the characters of the original string. For
  each non-alphabetic one it calls `replace(e, " ")` on the working copy.
  `FilterTextNoise` does the same. It is proved equal to `NoiseFiltered`, the
  position-by-position view: letters are kept, every other character becomes a
  space.
- `translate_emoticons` guards each `replace` with `in`. `TranslateEmoticons`
  keeps that guard. It is proved equal to `EmoticonsApplied`, which replaces
  every table key unconditionally, because `GuardedReplaceIsReplace` shows the
  guard never changes the result.
- `main` assigns the data-frame columns in the script's order. The class
  `Frame` holds one sequence per column. Its methods reassign those columns in
  the same order as the script. `Frame.Prepare` proves three things:
  - the comments table is left untouched;
  - every derived column has one entry per comment, in comment order;
  - each row equals `PrepareRow` of its comment.

Edge cases of the code that the model keeps as written:
- A score of exactly -0.1 is labelled negative, because the neutral test
  `-0.1 < score` is strict (scripts/data_preparation.py:153).
- `has_emoticons("")` is 1 when some emoticon key is the empty string, because
  `"" in ""` holds in Python (scripts/data_preparation.py:195).
- A supplied score of 0.0 is ignored and the text is rescored, because the test
  is `not score` (scripts/data_preparation.py:149-150).
- An exception in any row is not handled per row: it escapes the whole
  preparation step (scripts/data_preparation.py:236-237). The model has no
  per-row fallback.

## Model

| member | source | states |
|---|---|---|
| `PyStr.Contains` | src/youtube_analysis/cleanutils.py:30 | Python's `pat in s`: the empty string is in every text, and a string found in a text is no longer than it |
| `PyStr.ContainsIffOccurs` | src/youtube_analysis/cleanutils.py:30 | Python's `pat in s` holds exactly when `pat` is a prefix of some suffix `s[i..]`, `0 <= i <= |s|` |
| `PyStr.EmptyContainsOnlyEmpty` | scripts/data_preparation.py:195 | the only string "in" the empty text is the empty string |
| `PyStr.InsertEverywhere` | src/youtube_analysis/cleanutils.py:31 | `s.replace("", rep)` puts `rep` in all `|s| + 1` gaps, so its length is `|s| + (|s| + 1) * |rep|` |
| `PyStr.ReplaceAll` | src/youtube_analysis/cleanutils.py:31 | `s.replace(pat, rep)` for a nonempty `pat`: same length when `|rep| == |pat|`, never longer when `rep` is shorter, never shorter when it is longer |
| `PyStr.ReplaceAbsent` | src/youtube_analysis/cleanutils.py:29-31 | replacing a nonempty string that does not occur leaves the text unchanged |
| `PyStr.GuardedReplaceIsReplace` | src/youtube_analysis/cleanutils.py:30-31 | "if `pat` in `s` then replace" equals unconditional replace for every `pat`, the empty one included |
| `PyStr.ReplaceCharIsMapChar` | src/youtube_analysis/cleanutils.py:40 | replacing a one-character string is the character-wise map: each `c` becomes `rep`, other characters stay |
| `PyStr.MapCharAppend` | src/youtube_analysis/cleanutils.py:21 | the one-character replace distributes over concatenation |
| `PyStr.MapCharPointwise` | src/youtube_analysis/cleanutils.py:40 | replacing a character by one character keeps the length; position `j` holds `d` if it held `c`, else its old character |
| `PyStr.MapCharOrigin` | src/youtube_analysis/cleanutils.py:21 | every output character comes from `rep`, or is an input character other than `c` |
| `PyStr.Join` | src/youtube_analysis/cleanutils.py:23 | `" ".join(xs)`: empty for no strings; otherwise it starts with the first string, and its length is the strings' total length plus one separator between each pair of neighbours |
| `PyStr.FirstIndex` | src/youtube_analysis/cleanutils.py:18-19 | `None` exactly when `x` is not in the list; otherwise the position holds `x` and no earlier position does (`list.index`) |
| `CleanUtils.Describe` | src/youtube_analysis/cleanutils.py:21 | an emoji's replacement text contains neither ':' nor '_' |
| `CleanUtils.DescribeIsOnePass` | src/youtube_analysis/cleanutils.py:21 | the two `replace` calls equal a single pass that deletes each ':' and turns each '_' into a space |
| `CleanUtils.TwoMapsAreOnePass` | src/youtube_analysis/cleanutils.py:21 | the two character maps composed equal the one-pass map (induction step of the above) |
| `CleanUtils.EmojiStep` | src/youtube_analysis/cleanutils.py:18-22 | one table entry keeps the token count and changes at most one position, the first holding the emoji; that position gets the described meaning, and later duplicates keep the glyph |
| `CleanUtils.EmojiTokens` | src/youtube_analysis/cleanutils.py:17-22 | the loop over the whole table preserves the token count |
| `CleanUtils.EmojiTokensNoKey` | src/youtube_analysis/cleanutils.py:17-22 | with no table emoji among the tokens, the token list is unchanged |
| `CleanUtils.EmojiTokensOrigin` | src/youtube_analysis/cleanutils.py:17-22 | every output token is the input token at that position or the described meaning of some table entry |
| `CleanUtils.EmojisTranslated` | src/youtube_analysis/cleanutils.py:14-23 | translate_emojis as a function; with no table emoji among the tokens, it returns the space-join of the original tokens |
| `CleanUtils.TranslateEmojis` | src/youtube_analysis/cleanutils.py:14-23 | the in-place loop over the table yields the space-joined `EmojiTokens` of the tokenized text |
| `CleanUtils.EmoticonsApplied` | src/youtube_analysis/cleanutils.py:26-32 | translate_emoticons as a function; when no emoticon key occurs in the text, the text comes back unchanged |
| `CleanUtils.TranslateEmoticons` | src/youtube_analysis/cleanutils.py:26-32 | the guarded loop equals left-to-right replace-all of every table key, in table order |
| `CleanUtils.NoiseFiltered` | src/youtube_analysis/cleanutils.py:35-41 | the filtered text has the input's length and holds only alphabetic characters and spaces |
| `CleanUtils.NoiseFilteredIdempotent` | src/youtube_analysis/cleanutils.py:35-41 | filtering twice is filtering once |
| `CleanUtils.NoiseFilteredFixedPoints` | src/youtube_analysis/cleanutils.py:35-41 | the filter leaves a text unchanged exactly when it holds only alphabetic characters and spaces |
| `CleanUtils.FilterTextNoise` | src/youtube_analysis/cleanutils.py:35-41 | the loop of whole-string replacements equals the position-by-position map: letters kept, anything else a space |
| `CleanUtils.Kept` | src/youtube_analysis/cleanutils.py:47-51 | the kept list is no longer than the input; a token is in it exactly when it is an input token that is not a stopword |
| `CleanUtils.KeptAppend` | src/youtube_analysis/cleanutils.py:48-51 | filtering a concatenation is concatenating the filtered parts, which is what appending in a loop builds |
| `CleanUtils.KeptIsSubsequence` | src/youtube_analysis/cleanutils.py:47-51 | the kept tokens are a subsequence of the input, in the original order |
| `CleanUtils.KeptCounts` | src/youtube_analysis/cleanutils.py:47-51 | a non-stopword keeps its number of occurrences; a stopword occurs zero times |
| `CleanUtils.KeptFixedPoints` | src/youtube_analysis/cleanutils.py:47-51 | the filter returns its input exactly when no token is a stopword |
| `CleanUtils.KeptIdempotent` | src/youtube_analysis/cleanutils.py:47-51 | filtering an already filtered token list changes nothing |
| `CleanUtils.StopwordsFiltered` | src/youtube_analysis/cleanutils.py:44-52 | filter_stopwords as a function; with no stopword among the tokens, it returns the space-join of the tokens |
| `CleanUtils.FilterStopwords` | src/youtube_analysis/cleanutils.py:44-52 | the appending loop yields the space-joined non-stopword tokens of the tokenized text |
| `CleanUtils.LemmatizedText` | src/youtube_analysis/cleanutils.py:55-59 | lemmatize_text: no tokens give the empty text; otherwise the text starts with the lemma of the first token |
| `Sentiment.GetSentLabel` | scripts/data_preparation.py:126-155 | with the score missing or 0.0, the label is `Thresh` of the text's compound score; with a nonzero score, it is `Thresh` of that score |
| `Sentiment.Thresh` | scripts/data_preparation.py:151-155 | positive exactly when score > 0.4; neutral exactly when -0.1 < score <= 0.4; negative exactly when score <= -0.1 |
| `Sentiment.ThreshBoundaries` | scripts/data_preparation.py:151-155 | 0.4 is neutral, 0.40001 positive, -0.1 negative, -0.09999 neutral, 0.0 neutral |
| `Sentiment.ThreshMonotone` | scripts/data_preparation.py:151-155 | a higher score never gets a lower label |
| `Sentiment.LabelTextsDistinct` | scripts/data_preparation.py:151-155 | the three labels are stored as three different strings, so the sent_class string determines the label |
| `Sentiment.FalsyScoreRescores` | scripts/data_preparation.py:149-150 | with the score missing or 0.0, the label is that of the text's compound score |
| `Sentiment.TruthyScoreIgnoresText` | scripts/data_preparation.py:149-155 | a nonzero supplied score alone decides the label; the text and the scorer do not matter |
| `Sentiment.LabelAgreesWithScore` | scripts/data_preparation.py:149-179 | labelling a text by itself gives the label of get_sent_score's score for it; a text scoring 0.0 is neutral |
| `Features.EmojiFlag` | scripts/data_preparation.py:182-188 | the flag is 0 or 1, and 1 exactly when some emoji key equals some token |
| `Features.EmoticonFlag` | scripts/data_preparation.py:191-197 | the flag is 0 or 1, and 1 exactly when some emoticon key occurs in the raw text |
| `Features.HasEmojis` | scripts/data_preparation.py:182-188 | the early-return scan over the table yields `EmojiFlag` of the tokenized text |
| `Features.HasEmoticons` | scripts/data_preparation.py:191-197 | the early-return scan over the table yields `EmoticonFlag` of the raw text |
| `Features.EmoticonNextToPunctuation` | scripts/data_preparation.py:191-197 | ":)" packed between letters and "!" is found, because the test is substring containment |
| `Features.NoTokensNoEmoji` | scripts/data_preparation.py:184-188 | an empty token list has no emoji |
| `Features.EmptyTextNoEmoticon` | scripts/data_preparation.py:193-197 | the empty text has no emoticon when every emoticon key is nonempty |
| `Features.NoEmoticonNoTranslation` | scripts/data_preparation.py:89-95 | when has_emoticons is 0, translate_emoticons returns the text unchanged |
| `Features.NoEmojiNoTranslation` | scripts/data_preparation.py:77-86 | when has_emojis is 0, translate_emojis only re-joins the tokens with spaces |
| `DataPreparation.Apply` | scripts/data_preparation.py:223 | `column.apply(f)` keeps the row count and the order; row `i` becomes `f` of row `i` |
| `DataPreparation.CleanedText` | scripts/data_preparation.py:223-227 | when no emoji is a token and no emoticon occurs, cleaned_text is the lower-cased noise filter of the space-joined tokens of the HTML-free text |
| `DataPreparation.PrepareRow` | scripts/data_preparation.py:222-233 | see the notes below the table |
| `DataPreparation.ZeroScoreIsNeutral` | scripts/data_preparation.py:232-233 | a comment whose cleaned text scores 0.0 is labelled neutral |
| `DataPreparation.Frame.constructor` | scripts/data_preparation.py:65-68 | read_data: a frame holding the comments table and no derived columns |
| `DataPreparation.Frame.AddCleanedText` | scripts/data_preparation.py:223-227 | the five successive cleaned_text assignments leave row `i` equal to `CleanedText` of comment `i`'s raw text |
| `DataPreparation.Frame.AddFilteredAndLemmatized` | scripts/data_preparation.py:228-229 | filtered_text is derived from cleaned_text, then lemmatized_text from filtered_text, row by row |
| `DataPreparation.Frame.AddFeatures` | scripts/data_preparation.py:230-231 | has_emojis and has_emoticons are derived from the raw text column, row by row |
| `DataPreparation.Frame.AddSentiment` | scripts/data_preparation.py:232-233 | sent_class (the string of get_sent_label with no score) and sent_score (the compound score) are both derived from cleaned_text |
| `DataPreparation.Frame.Prepare` | scripts/data_preparation.py:221-234 | the comments table is unchanged; every column has one entry per comment; row `i` is `PrepareRow` of comment `i`; sent_class is the string of `Thresh(sent_score)` on every row |

`DataPreparation.PrepareRow` states how each derived column of a row comes
from its inputs:
- cleaned_text is `lower(filter_text_noise(translate_emoticons(translate_emojis(remove_html_tags(text)))))`;
- filtered_text comes from cleaned_text, and lemmatized_text from filtered_text;
- sent_score is the compound score of cleaned_text;
- sent_class is the string of `Thresh(sent_score)`;
- has_emojis is 0 or 1, and 1 exactly when some emoji key is a token of the raw text;
- has_emoticons is 0 or 1, and 1 exactly when some emoticon key occurs in the raw text.

## Left out

- `remove_html_tags`, `word_tokenize`, `str.isalpha`, `str.lower` (applied through pandas' `str.lower`) and WordNet's lemmatizer: foreign library code. Each is a function parameter in `Toolkit.Nlp`, assumed deterministic.
- The contents of the emot tables and of nltk's stopword list: library data, passed in as `Toolkit.Lexicons`. Dictionary keys are unique, but the model does not need that, so it does not require it.
- `LemmatizedText`: with the lemmatizer a parameter, its contract says only how the output begins; the word-by-word correspondence is its body.
- `get_sent_score` and VADER's scoring: the scorer is the parameter `compound`. `get_sent_label` creates a fresh `SentimentIntensityAnalyzer` on every call; this is not modelled, because the score it gives is taken to depend on the text alone.
- Floating point: scores are `real`. The thresholds 0.4 and -0.1 stand for the doubles nearest them, so a double equal to the literal 0.4 is the real 0.4. NaN, which Python treats as truthy, is not modelled.
- `get_sent_label`'s `not score` test is modelled for a missing score (`None`) and for a float score. Other falsy values (`False`, `""`) are not modelled.
- `TranslateEmojis`: the source tests `emo in tokens` and then calls `tokens.index(emo)` (src/youtube_analysis/cleanutils.py:18-19). The model keeps the `in` test and computes the index with `FirstIndex`, which gives the same position. `has_emojis` only tests `in` and is modelled that way.
- `translate_emojis` assigns into a Python list created inside the function. The model updates a local sequence instead of an array, because the list never escapes the function, so no aliasing is lost.
- `read_data`, `save_corpus` and the pickle output: file I/O. `Frame`'s constructor takes the rows already read. Missing CSV cells that pandas reads as NaN are not modelled.
- `Comment`: `to_csv` in the collection script (scripts/data_collection.py:172) also writes the data-frame index, so `read_data` yields an extra unnamed column. The model keeps only the five named columns.
- `Frame.Prepare`: the failure path of `main` is not modelled. In the source, an exception raised for any row at any step (a NaN cell reaching BeautifulSoup, missing nltk data) skips `save_corpus`, so no corpus is written (scripts/data_preparation.py:221-237). The model takes every foreign function to be total, so `Prepare` always fills every column.
- The click command-line options, the logging, and the module-level warning settings: they do not change the data.
- The collection script, the insight/plotting script, configuration, paths and the EDA helpers: API calls, plotting and file-system glue outside the preparation rules.
