# Extractive summariser — Dafny model

This project models `summarizeText(text, numSentences = 2)` in `server/index.js`,
the one piece of the Summarizer server with real logic. The function is an
extractive summariser. It splits the text into sentences and counts the words
of the whole text, leaving out 21 stop words. Each sentence scores the sum of
the counts of its words. The function returns the best-scoring sentences,
highest first, joined by single spaces.

The model follows the function's pipeline, one module per stage:

- `Text` (`text.dfy`) holds segmentation and tokenisation.
  - Sentences are the matches of `/[^.!?]+[.!?]/g`, modelled as a scan that records each match's position (`Span`).
  - Words are the matches of `/\b\w+\b/g` on the lower-cased text (`Runs`, `Words`).
- `Frequency` (`frequency.dfy`) holds the stop set and the word table.
  - `BuildFrequencyTable` is the counting loop, written as a loop over a `map`.
  - It is proved equal to `FrequencyTable`, which states the table directly: each non-stop word mapped to its number of occurrences.
- `Scoring` (`scoring.dfy`) holds the sentence score, which is the `reduce`.
  - The score table is an insertion-ordered `seq<Entry>`, updated by `Put` the way a JavaScript object keyed by the sentence text is updated.
  - `BuildScoreTable` is the scoring loop. It is proved equal to `ScoreTable`: the distinct sentence texts in first-seen order, each with its score.
- `Selection` (`selection.dfy`) holds the `sort`/`slice`/`map`/`join` chain.
  - The sort is a stable insertion sort by descending score.
  - `slice(0, n)` follows JavaScript for negative `n`.
- `Summarizer` (`summarizer.dfy`) holds the whole function.
  - `Summary` is the specification and `SummarizeText` is the imperative pipeline proved equal to it.
  - The lemmas here state what the caller sees.
- `Scenarios` (`scenarios.dfy`) works through two small inputs. They show that sentence texts are compared exactly, leading whitespace included.

The inputs are modelled like this:

- An absent text (`null` or `undefined`) is `None`.
- An omitted count is `None` and means 2.
- A given count is any integer, negative ones included.

Two behaviours of the code are easy to misread:

- The stop set is exactly the 21 words of `server/index.js:29`; "are" and "too" are not among them.
- A sentence keeps the whitespace that precedes it (`server/index.js:28`), and the score table is keyed by the exact sentence text (`server/index.js:43`).
  - In "The cat sat. Cats are great animals. Dogs are great too.", the second sentence is `" Cats are great animals."`, with its leading space.
  - In "Cats are great. Cats are great. Dogs bark.", the texts `"Cats are great."` and `" Cats are great."` are different keys. Both survive.
  - Only byte-identical texts collapse into one entry (`Scenarios.IdenticalSentencesCollapse`).

## Model

| member | source | states |
|---|---|---|
| Text.IsWordChar | server/index.js:30 | definition of the class `\w` as `[A-Za-z0-9_]` (also line 41); characterised by `Text.RunLength` and `Text.RunsAreMaximal` |
| Text.Lower | server/index.js:30 | definition of `toLowerCase` on ASCII letters; characterised by `Text.LowerChars`, and used through `Text.LowerAppend` in `Text.WordsSplit` |
| Text.LowerChars | server/index.js:30 | lower-casing keeps the length, maps each of `A`..`Z` to the letter at the same place in `a`..`z`, leaves every other character unchanged, and so changes no character's membership in `\w` or in `[.!?]` |
| Text.Runs | server/index.js:30 | definition of the global `\b\w+\b` match; characterised by `Text.RunsAreMaximal` and `Text.RunsAreWordChars` |
| Text.Words | server/index.js:30 | definition of `text.toLowerCase().match(/\b\w+\b/g) \|\| []` (also line 41 for a sentence); characterised by `Text.RunsAreMaximal` and `Text.WordsAroundSentence` |
| Text.RunLength | server/index.js:30 | the greedy `\w+` run at the front of a string: every character before the returned length is a word character, and the next one, if any, is not |
| Text.RunsAreWordChars | server/index.js:30 | every word token is a non-empty run of `[A-Za-z0-9_]`, and the tokens concatenated are exactly the word characters of the input in order, so tokenising drops separators and nothing else |
| Text.WordSpansFrom | server/index.js:30 | the scan of `\b\w+\b` by position: spans lie inside the text, at or after the scan's start |
| Text.RunsAtWordSpans | server/index.js:30 | the tokens of a suffix are exactly the slices of the text at the spans the scan finds, one for one |
| Text.WordSpansSound | server/index.js:30 | every span the scan finds is a non-empty run of word characters with no word character just before or after it, and the spans are strictly apart, in order |
| Text.WordSpansComplete | server/index.js:30 | the scan misses no maximal run: every position that starts a run of word characters starts one of the spans |
| Text.RunsAreMaximal | server/index.js:30 | the tokens are exactly the maximal runs of `[A-Za-z0-9_]`, in order: each token is the slice at a span that is all word characters and has no word character just before or after it, and every maximal run is a token; so "cats" is one token and the "a" inside "cat" is none |
| Text.RunsAppend | server/index.js:41 | tokenising text that is split just after a non-word character gives the tokens of the first part followed by those of the second |
| Text.WordsSplit | server/index.js:30-41 | tokenising text split just after a non-word character gives the tokens of the first part followed by those of the second |
| Text.IsTerminator | server/index.js:28 | definition of the class `[.!?]`; characterised by `Text.SpansFromSound` and `Text.SentenceLength` |
| Text.Spans | server/index.js:28 | definition of the positions of the `[^.!?]+[.!?]` matches; characterised by `Text.SentencesAreSlices` and `Text.SentencesComplete` |
| Text.Sentences | server/index.js:28 | definition of `text.match(/[^.!?]+[.!?]/g) \|\| []`; characterised by `Text.SentencesAreSlices` and `Text.SentencesComplete` |
| Text.SpansFrom | server/index.js:28 | the global scan lists spans that lie inside the text, each starting no earlier than the run it was found in |
| Text.SpansFromSound | server/index.js:28 | each match of `[^.!?]+[.!?]` found by the scan is at least two characters long, ends in `.`, `!` or `?`, has no terminator before its last character, and starts at the text's start or right after a terminator; the matches are in document order and do not overlap |
| Text.SpansFromComplete | server/index.js:28 | the scan misses no match: every terminator that follows a non-terminator ends one of the spans |
| Text.SentencesAreSlices | server/index.js:28 | each sentence is the verbatim slice of the text at its span, at least two characters long, ending in a terminator with none before it, and the slices are in document order without overlap |
| Text.SentenceLength | server/index.js:28 | every sentence is at least two characters long and ends in a terminator |
| Text.SentencesComplete | server/index.js:28 | every terminator directly after a non-terminator closes a sentence of the text |
| Text.WordsAroundSentence | server/index.js:30-41 | the words of the whole text are the words before a sentence, the words of the sentence and the words after it, because a sentence boundary never cuts through a word |
| Text.SentenceWordsInText | server/index.js:30-41 | every word of a sentence is also a word of the whole text |
| Frequency.StopWords | server/index.js:29 | definition of the 21-word `stopWords` set; characterised by `Frequency.StopWordsLeaveOut`, `Frequency.StopWordsAreLowerCase` and `Frequency.FrequencyTableInvariant` |
| Frequency.StopWordsLeaveOut | server/index.js:29 | "are" and "too" are not stop words, so they are counted and scored |
| Frequency.StopWordsAreLowerCase | server/index.js:29-30 | every stop word is a non-empty string of lower-case letters, so each can equal a lower-cased token and be skipped |
| Frequency.Lookup | server/index.js:35 | definition of `wordFreq[word] \|\| 0` (also line 42); characterised by `Frequency.FrequencyTableSnoc` and `Scoring.SumLookupsBounds` |
| Frequency.FrequencyTable | server/index.js:32-37 | definition of the finished word table; characterised by `Frequency.BuildFrequencyTable` and `Frequency.FrequencyTableInvariant` |
| Frequency.Occurrences | server/index.js:33-36 | the count of a word is at most the number of words, and it is positive exactly when the word occurs |
| Frequency.FrequencyTableSnoc | server/index.js:33-36 | one more word leaves the table unchanged if it is a stop word; otherwise it sets that word's count to its old count, or 0, plus 1 |
| Frequency.BuildFrequencyTable | server/index.js:32-37 | the counting loop yields exactly the table mapping each distinct non-stop word to its number of occurrences |
| Frequency.FrequencyTableInvariant | server/index.js:29-37 | the table's keys are exactly the non-stop words of the text (never a stop word), every count is at least 1, and the counts sum to the number of non-stop words |
| Frequency.TotalIncrement | server/index.js:35 | counting one more occurrence of a word raises the sum of all counts by exactly 1, whether or not the word was already a key |
| Scoring.SumLookups | server/index.js:42 | definition of the `reduce` that sums the lookups; characterised by `Scoring.SumLookupsBounds` |
| Scoring.SentenceScore | server/index.js:41-42 | definition of a sentence's score; characterised by `Scoring.SentenceScoreZero` |
| Scoring.Put | server/index.js:43 | definition of `sentenceScores[sentence] = score`; characterised by `Scoring.ScoreTableSnoc` and `Scoring.ScoreTableRepeat` |
| Scoring.ScoreTable | server/index.js:39-44 | definition of the finished score table; characterised by `Scoring.BuildScoreTable` and `Scoring.ScoreTableShape` |
| Scoring.SumLookupsBounds | server/index.js:42 | the reduced sum is at least each word's lookup, with a missing word counting 0, and it is 0 exactly when every word looks up 0 |
| Scoring.SentenceScoreZero | server/index.js:30-42 | with the table built from the whole text, each non-stop word of a sentence contributes between 1 and the sentence's score, so a sentence scores 0 exactly when all its words are stop words |
| Scoring.FirstOccurrences | server/index.js:43 | the distinct sentence texts hold exactly the sentences' texts, each once |
| Scoring.FirstOccurrencesOrdered | server/index.js:39-44 | the distinct texts appear in the order of their first occurrences |
| Scoring.ScoreTableSnoc | server/index.js:43 | assigning a sentence's score under its text takes the table of the earlier sentences to the table of all of them |
| Scoring.BuildScoreTable | server/index.js:39-44 | the scoring loop yields exactly the distinct sentence texts in first-seen order, each paired with its score |
| Scoring.ScoreTableShape | server/index.js:39-46 | the score table has one entry per distinct sentence text, no text twice, in first-seen order, each entry carrying that text's score |
| Scoring.ScoreTableRepeat | server/index.js:43 | a repeated identical sentence text neither adds an entry nor changes any score |
| Selection.Insert | server/index.js:47 | inserting an entry adds exactly that entry and nothing else, and the result starts with either the new entry or the old first entry |
| Selection.NonIncreasingCons | server/index.js:47 | a head scoring at least as much as the first entry of a score-ordered sequence keeps it score-ordered |
| Selection.InsertOrdered | server/index.js:47 | inserting into a score-ordered sequence keeps it score-ordered |
| Selection.SortByScore | server/index.js:46-47 | the sorted table has non-increasing scores and is a permutation of the table |
| Selection.SortByScoreStable | server/index.js:47 | the sort is stable: for every score, the entries with that score keep their order from the table |
| Selection.StableSortUnique | server/index.js:47 | two score-ordered sequences that agree score by score on their entries and order are equal, so every stable descending sort returns this one's result |
| Selection.SortByScoreKeys | server/index.js:46-47 | sorting keeps the set of sentence texts and introduces no repeated text |
| Selection.SortEqualScores | server/index.js:47 | when all scores are equal the sort returns the table unchanged, in first-seen order |
| Selection.SelectEqualScores | server/index.js:46-49 | when all scores are equal the chosen texts are the table's first texts, cut as `slice(0, n)` cuts |
| Selection.TakeSorted | server/index.js:46-49 | `slice(0, n)` of the sorted table keeps `SliceEnd` entries, ordered by score, each of them an entry of the table |
| Selection.SelectKeys | server/index.js:46-49 | from a table without repeated texts the chosen texts are texts of the table, none twice, and all of them when nothing is cut off |
| Selection.TakeBeatsRest | server/index.js:46-48 | every entry kept by `slice(0, n)` after the sort scores at least every entry of the table that is cut off |
| Selection.TakeTiesFirst | server/index.js:46-48 | for every score, the kept entries with that score are the first entries of the table with that score |
| Selection.TieKeptFirst | server/index.js:46-48 | of a kept and a cut-off entry with the same score, the kept one comes first in the table |
| Selection.KeptBeatsCut | server/index.js:46-49 | a chosen text's entry scores at least that of a table text left out, and at equal score comes first in the table |
| Selection.Take | server/index.js:48 | definition of `slice(0, n)`; characterised by `Selection.SliceEnd` and `Selection.TakeSorted` |
| Selection.Select | server/index.js:46-49 | definition of the `sort`/`slice`/`map` chain; characterised by `Selection.SelectKeys`, `Selection.TakeSorted` and `Selection.KeptBeatsCut` |
| Selection.Join | server/index.js:51 | definition of `join(' ')`; characterised by `Selection.JoinLayout` |
| Selection.SliceEnd | server/index.js:48 | `slice(0, n)` never reaches past the end of the list |
| Selection.JoinLength | server/index.js:51 | the joined string is empty for no pieces, and otherwise as long as the pieces plus one separator between each neighbouring pair |
| Selection.JoinPiece | server/index.js:51 | each piece appears verbatim in the joined string at its offset, and a single space precedes every piece but the first |
| Selection.JoinFirst | server/index.js:51 | the joined string starts with the first piece |
| Selection.JoinLayout | server/index.js:51 | all pieces sit verbatim at their offsets with exactly one space between neighbours and nothing before the first or after the last |
| Summarizer.NoTextMessage | server/index.js:26 | definition of the message returned for missing text; characterised by `Summarizer.NoTextGivesMessage` |
| Summarizer.DefaultCount | server/index.js:25 | definition of the default `numSentences = 2`; characterised by `Summarizer.OmittedCountIsTwo` |
| Summarizer.EffectiveCount | server/index.js:25 | definition of the count in force: the one passed, else the default; characterised by `Summarizer.OmittedCountIsTwo` |
| Summarizer.Summary | server/index.js:25-52 | definition of what `summarizeText` returns; characterised by `Summarizer.SummarizeText`, `Summarizer.NoTextGivesMessage` and `Summarizer.SummaryLayout` |
| Summarizer.TableOf | server/index.js:28-44 | definition of the score table of a text; characterised by `Scoring.ScoreTableShape` |
| Summarizer.Chosen | server/index.js:46-49 | definition of the chosen sentence texts; characterised by `Summarizer.ChosenCount`, `Summarizer.ChosenSentences` and `Summarizer.ChosenBeatRest` |
| Summarizer.SummarizeText | server/index.js:25-52 | the imperative pipeline returns exactly the specified summary for every text and count, without any precondition |
| Summarizer.NoTextGivesMessage | server/index.js:26 | absent or empty text yields "No text provided for summarization." whatever the count |
| Summarizer.OmittedCountIsTwo | server/index.js:25 | an omitted count behaves as a count of 2 |
| Summarizer.SelectScored | server/index.js:46-49 | when every entry of a table carries its sentence's score, the chosen texts' scores never increase |
| Summarizer.SelectFromScoreTable | server/index.js:39-49 | for any list of sentences, the texts chosen from its score table number `slice(0, n)` of the distinct texts, are sentences of the list, none twice, with scores that never increase, and are all of them when n reaches the number of distinct texts |
| Summarizer.SelectBestFromScoreTable | server/index.js:39-49 | for any list of sentences, each chosen text scores at least every sentence left out, and beats a left-out sentence of equal score by being seen first |
| Summarizer.ChosenBeatRest | server/index.js:28-49 | each chosen sentence scores at least every sentence of the text left out, and of two sentences with equal score the one seen first is chosen first |
| Summarizer.ChosenCount | server/index.js:46-48 | the number chosen is min(n, distinct sentences) for n >= 0 and all but the last -n for n < 0 |
| Summarizer.ChosenSentences | server/index.js:28-49 | every chosen text is a sentence of the input, none is chosen twice, and scores never increase along the choice; when n covers them all, every distinct sentence is chosen exactly once |
| Summarizer.SummaryLayout | server/index.js:49-51 | for non-empty text the summary is the chosen sentences verbatim, joined with single spaces and no trailing separator, and it is the empty string when nothing is chosen, e.g. for a count of 0 |
| Summarizer.SummaryNotEmpty | server/index.js:28-51 | a text with at least one sentence and a count of at least 1 gives a non-empty summary that begins with a whole sentence of the text |
| Summarizer.StopWordScoresZero | server/index.js:29-44 | when every sentence consists only of stop words, every entry of the score table scores 0 |
| Summarizer.StopWordSentencesKeepOrder | server/index.js:29-49 | when every sentence consists only of stop words, all scores are 0 and the summary takes the first sentences in first-seen order |
| Scenarios.IdenticalSentencesSegment | server/index.js:28 | "Hi.Hi." segments into two identical sentences |
| Scenarios.IdenticalSentencesCollapse | server/index.js:43-51 | for "Hi.Hi." with a count of 3 the summary is "Hi.", because the identical texts collapse into one entry |
| Scenarios.LeadingSpaceKeepsSentencesApart | server/index.js:28-43 | in "Hi. Hi." the second sentence keeps its leading space, so the two texts stay distinct entries |

## Left out

- The Express and MongoDB wiring (server/index.js:1-22 and 54-81). This covers app setup, CORS, the schema, the `/summarize` and `/summaries` routes and `app.listen`. It is network and persistence I/O.
- The React component in server/Summarizer.js. It handles UI state and makes the `fetch` call, and it has no logic of the summariser. Its count of 3 is a caller's choice.
- Plain-object lookups of inherited property names. `wordFreq` is a plain JavaScript object, so words such as `constructor` or `__proto__` read inherited properties, and the counts and scores then become strings or `NaN`. The model uses true maps. Sentence keys cannot meet this problem, because every sentence ends in `.`, `!` or `?`. For the same reason a sentence key is never an integer-like property name, so `Object.entries` returns the entries in insertion order, as the model does.
- Non-ASCII text. Lower-casing is modelled for `A`–`Z` only. JavaScript's `toLowerCase` can map some non-ASCII characters to ASCII letters, for example the Kelvin sign to `k`. `\w` is ASCII in both the source and the model.
- Coercion of the arguments. A count of `null`, a string, a fraction, `NaN` or `Infinity` is left out, and so is a truthy non-string text. The count is an integer or omitted, and the text is a string or absent.
- Number precision. Counts and scores are unbounded naturals. JavaScript numbers are doubles, which only differ beyond 2^53.
- The engine's sorting algorithm. The model sorts by insertion. `Selection.StableSortUnique` shows that any stable descending sort gives the same order.
