# YouTube comment sentiment: the cleaning and bucketing pipeline in Dafny

This project models the part of `YoutubeCommentSentiment.py` that does the
real work. It reads a video's fetched comments and strips emoji from each one
(`remove_emoji`). It keeps only comments detected as English
(`remove_non_english`), rewriting the list in place (`clean_comments`). It
then drops and counts the comments left empty or missing, and labels each
remaining comment Positive, Negative or Neutral by the sign of its polarity
(`build_sentiment_df`, `get_sentiment`).

The three library calls are parameters of the model:

- the emoji detector `demoji.findall` is `findEmoji: string -> seq<string>`, giving the
  detected emoji in the order of the dictionary's keys;
- the language detector `langdetect.detect` is `detect: string -> Option<string>`, where
  `None` stands for the exception it raises on text without features;
- the polarity scorer `TextBlob(text).sentiment.polarity` is `polarity: string -> real`;
  only its sign is used.

Python's `str.replace(emoji, '')` is modelled by `TextSanitizer.RemoveAll`: scan
from the left and delete each non-overlapping occurrence. A Python list that
holds strings or `None` is an `array<Option<string>>`. The pandas frame is an
ordered sequence of `(comment, sentiment)` rows, and a NaN cell is `None`. The
number of removed comments, which the source prints, is returned with the rows.

Files: `options.dfy` (Option, Result), `text_sanitizer.dfy`, `language_filter.dfy`,
`sentiment_classifier.dfy`, `comment_pipeline.dfy`.

Where the source's own docstrings and what its code does differ, the model follows the code:

- The docstring of `remove_non_english` (lines 84 and 94) promises the empty string for every
  language other than English. Line 99 only returns for `'en'`; for any other code the function
  runs off its end and returns `None`. The frame treats `None` and `''` alike
  (`CommentPipeline.MissingAndEmptyAlike`), so the report does not change.
- The docstring of `remove_emoji` (line 73) promises a string with the emoji replaced by the
  empty string. The successive replaces at line 78 guarantee that only for single-character
  emoji. Deleting a longer pattern can join its neighbours into a new occurrence
  (`TextSanitizer.RemoveAllMayLeaveOccurrence`).
- When the comment request fails with an HTTP error, the entry point prints a message and
  carries on with the empty list it started with (lines 194-203). Building the frame from that
  empty list raises instead of giving an empty report (see Findings).

## Model

| member | source | states |
|---|---|---|
| TextSanitizer.RemoveAll | YoutubeCommentSentiment.py:78 | removing occurrences never lengthens the text, and the result's characters are a sub-multiset of the input's |
| TextSanitizer.RemoveAllSubseq | YoutubeCommentSentiment.py:78 | the result is a subsequence of the text: the characters that remain keep their original order |
| TextSanitizer.RemoveAllAbsent | YoutubeCommentSentiment.py:78 | a pattern that does not occur leaves the text unchanged |
| TextSanitizer.RemoveAllKeepsPrefix | YoutubeCommentSentiment.py:78 | a leading part of the text in which no occurrence of the pattern starts is kept whole, and removal carries on in the rest |
| TextSanitizer.RemoveAllFirstOccurrence | YoutubeCommentSentiment.py:78 | everything before the first occurrence is kept, that occurrence is deleted, and removal resumes right after it; with RemoveAllAbsent this fixes the result for patterns of any length |
| TextSanitizer.RemoveAllDeletesEveryOccurrence | YoutubeCommentSentiment.py:78 | removing "ab" from "abab" gives "": every occurrence is deleted, not only the first |
| TextSanitizer.RemoveAllShrinks | YoutubeCommentSentiment.py:78 | a non-empty pattern that occurs is removed, so the text gets strictly shorter |
| TextSanitizer.RemoveAllDropsChar | YoutubeCommentSentiment.py:78 | after removing a one-character pattern, that character does not occur in the result |
| TextSanitizer.RemoveAllMayLeaveOccurrence | YoutubeCommentSentiment.py:77-78 | removing "ab" from "aabb" leaves "ab": a multi-character emoji can survive its own removal |
| TextSanitizer.StripEmoji | YoutubeCommentSentiment.py:76-79 | the successive removals never lengthen the text, and the result's characters are a sub-multiset of the input's |
| TextSanitizer.StripEmojiSubseq | YoutubeCommentSentiment.py:76-79 | after all the removals the result is a subsequence of the text, its characters in their original order |
| TextSanitizer.StripEmojiAbsent | YoutubeCommentSentiment.py:75-79 | if no detected emoji occurs in the text, the text comes back unmodified |
| TextSanitizer.StripEmojiDropsSingleChars | YoutubeCommentSentiment.py:76-78 | a detected single-character emoji is absent from the result, whatever its place in the removal order |
| TextSanitizer.RemoveEmoji | YoutubeCommentSentiment.py:61-79 | the loop computes the successive removals of the detected emoji; the result is a subsequence of the input, unchanged when no detected emoji occurs, and free of every detected single-character emoji |
| LanguageFilter.RemoveNonEnglish | YoutubeCommentSentiment.py:97-102 | English gives the text back, a detector failure gives "", any other language gives no value; the text comes back unchanged exactly when it is detected English (or it is "" and detection fails); no other string is ever returned |
| LanguageFilter.SurvivorIsEnglish | YoutubeCommentSentiment.py:98-99 | corollary of RemoveNonEnglish: a non-empty text passes the filter unchanged if and only if it is detected as English |
| SentimentClassifier.GetSentiment | YoutubeCommentSentiment.py:143-149 | Positive iff the polarity is above 0, Negative iff below 0, Neutral iff exactly 0 |
| SentimentClassifier.GetSentimentAsWritten | YoutubeCommentSentiment.py:128-149 | as written the function gives None for every text, whatever its polarity |
| SentimentClassifier.AsWrittenDropsLabel | YoutubeCommentSentiment.py:128-149 | as written the function returns None, never the label it computes |
| CommentPipeline.CleanComment | YoutubeCommentSentiment.py:120-123 | a cleaned slot is missing, empty, or the emoji-stripped comment detected as English, and never longer than the comment |
| CommentPipeline.CleanComments | YoutubeCommentSentiment.py:119-124 | every slot i is replaced by the language filter applied to the emoji-stripped original slot i, the length is kept, and the same list is returned |
| CommentPipeline.CleanSeq | YoutubeCommentSentiment.py:119-124 | cleaning a list keeps its length: one cleaned slot per comment |
| CommentPipeline.CleanSeqPointwise | YoutubeCommentSentiment.py:119-124 | a list in which every slot holds the cleaned original slot is exactly the cleaned list |
| CommentPipeline.ReplaceEmptyWithNaN | YoutubeCommentSentiment.py:170 | the column keeps its length; a cell becomes NaN exactly when it was "" or missing, and every other cell is unchanged |
| CommentPipeline.CountNaN | YoutubeCommentSentiment.py:171 | the missing-cell count is at most the number of cells |
| CommentPipeline.DropNaN | YoutubeCommentSentiment.py:172 | survivors plus the missing-cell count make up the column, and every survivor is a present cell of the column |
| CommentPipeline.DropNaNKeepsOrder | YoutubeCommentSentiment.py:172 | dropna keeps exactly the present cells: the k-th survivor is the cell at the k-th kept position, the kept positions ascend, and a position is kept iff its cell is present |
| CommentPipeline.KeptIndicesSelect | YoutubeCommentSentiment.py:172 | there is one kept position per survivor, and the k-th kept position holds the k-th survivor |
| CommentPipeline.KeptIndicesAscend | YoutubeCommentSentiment.py:172 | the kept positions strictly ascend, so dropna does not reorder |
| CommentPipeline.KeptIndicesExact | YoutubeCommentSentiment.py:172 | a position is kept exactly when its cell is present |
| CommentPipeline.CountNaNIsNoneCount | YoutubeCommentSentiment.py:171 | the count equals the number of missing cells in the column |
| CommentPipeline.ReplacedNoneCount | YoutubeCommentSentiment.py:170-171 | after replacing "" with NaN, the missing cells are the former empty cells plus the former missing ones |
| CommentPipeline.LabelRows | YoutubeCommentSentiment.py:174 | applying the scorer gives exactly one row per surviving comment |
| CommentPipeline.SurvivorsAreEntries | YoutubeCommentSentiment.py:170-172 | every comment that survives the empty-to-NaN replacement and dropna is a non-empty entry of the input |
| CommentPipeline.BuildSentimentDf | YoutubeCommentSentiment.py:167-174 | rows plus removed equal the input length; every row's comment is a non-empty input entry and its sentiment is the label of its own text |
| CommentPipeline.BuildSentimentDfSpec | YoutubeCommentSentiment.py:170-174 | the rows are exactly the input entries that are neither "" nor missing, in their original relative order; the removed count is the number of "" entries plus missing ones |
| CommentPipeline.BuildSentimentDfEmpty | YoutubeCommentSentiment.py:167-174 | the corrected frame of an empty list has no rows and no removals |
| CommentPipeline.MissingAndEmptyAlike | YoutubeCommentSentiment.py:170-172 | a missing entry and an empty entry at the same position give the same frame |
| CommentPipeline.BuildSentimentDfAsWritten | YoutubeCommentSentiment.py:167-174 | as written, building the frame fails with a column length mismatch exactly when the list is empty; otherwise rows plus removed equal the input length, and every row is a non-empty input entry whose sentiment is None |
| CommentPipeline.AsWrittenRejectsEmptyInput | YoutubeCommentSentiment.py:167-168 | as written, an empty list makes building the frame fail with a column length mismatch |
| CommentPipeline.AsWrittenSentimentIsMissing | YoutubeCommentSentiment.py:174 | as written, a non-empty list gives the corrected rows and count, but every row's sentiment is None |
| CommentPipeline.AnalyzeComments | YoutubeCommentSentiment.py:202-203 | every fetched comment is either reported or counted as removed |
| CommentPipeline.AnalyzeCommentsSpec | YoutubeCommentSentiment.py:202-203 | each report row is a fetched comment, in fetch order, emoji-stripped, detected as English and labelled from its own text; a comment is reported iff cleaning leaves it a non-empty text; reported plus removed equals the number fetched |

## Findings

| source | as written | input that shows it | evidently intended | confidence | as-written member | corrected member |
|---|---|---|---|---|---|---|
| YoutubeCommentSentiment.py:128-149 | `get_sentiment` assigns `result` but has no `return`, so it returns `None` | any comment, for example one with polarity 0.5: its Sentiment cell is `None` and the summary counts no labels | return the computed label | high, not executed | SentimentClassifier.AsWrittenDropsLabel | SentimentClassifier.GetSentiment |
| YoutubeCommentSentiment.py:167-168 | `pd.DataFrame([])` has no columns, so `df.columns = ['Comment']` raises a length-mismatch error | the empty list, which the entry point passes on after an HTTP error (lines 194-203) | a report with no rows and 0 removed | medium, not executed | CommentPipeline.AsWrittenRejectsEmptyInput | CommentPipeline.BuildSentimentDfEmpty |

The whole-pipeline lemma `AnalyzeCommentsSpec` uses the corrected `BuildSentimentDf`,
which uses the corrected `GetSentiment`. The as-written frame is
`CommentPipeline.BuildSentimentDfAsWritten`. `AsWrittenSentimentIsMissing` relates
it to the corrected one on non-empty input.

## Left out

- `get_youtube_comment_threads` (lines 30-58): a remote API call and JSON traversal.
- The entry point (lines 180-206): argument parsing, `exit`, `HttpError` handling and the CSV export.
  `AnalyzeComments` models only its two pipeline calls (lines 202-203).
- The internals of `demoji.findall`, `langdetect.detect` and the TextBlob polarity scorer are not
  modelled. They are the parameters `findEmoji`, `detect` and `polarity`.
- `DetectorFactory.seed = 0` (line 96): process-wide library configuration. Its effect, a
  deterministic detector, is what a function parameter already assumes.
- The console output (lines 175-176) is left out as presentation. Line 176 builds the per-label
  count with `value_counts()`, but only prints it. That count lists no label with zero rows, and
  its descending order is a pandas convention. The model states no summary mapping.
- Pandas index bookkeeping is left out. The frame is a plain sequence of rows, and its index is `KeptIndices`.
- The model assumes pandas without copy-on-write, where `df['Comment'].replace(..., inplace=True)` updates
  the frame. Under copy-on-write, empty strings would not become NaN. The model does not cover that.
- The polarity is a real number. The scorer's floating-point values and NaN are not modelled.
- TextSanitizer.RemoveEmoji: does not state that no detected multi-character emoji survives, because
  the code does not guarantee it (`RemoveAllMayLeaveOccurrence`).
