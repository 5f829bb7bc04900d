# News article search and batch summarisation: a Dafny model

This project models the decision logic of a news-article system in Dafny. The system has two parts:

- **Search.** A natural-language query is turned into a publication-date window. The ids returned by a vector index are then filtered against a relational table of articles. The modelled functions are `parse_advanced_date_from_query`, `fetch_articles_from_mysql` and `search_articles` in `src/query_search.py`.
- **Summarisation bookkeeping.** Texts are cut into batches and each text is summarised with length limits taken from its word count. The modelled functions are `summarize_texts_in_batch` and `parallel_summarize` in `src/summarization.py`. The model covers what a model exception leaves in the result, and the order in which the results of parallel batches are concatenated.

Modules, one file each:

- `wrappers.dfy` (`Wrappers`): `Option` and `Result`. They stand in for a Python call that may raise.
- `civil_date.dfy` (`CivilDate`): Gregorian dates in the range of Python's `datetime.date` (years 1 to 9999).
  - `Ordinal` is Python's proleptic ordinal, with 0001-01-01 as day 1.
  - The date arithmetic the parser uses: `date - timedelta(days=n)`, `replace(day=1)`, and 1 January / 31 December of a year.
  - Stepping back is proved to land on "ordinal minus n", and to fail exactly where Python raises `OverflowError`.
- `date_query.dfy` (`DateQuery`): the date-range parser.
  - Lower-casing, the three year patterns with `re.search`'s leftmost-match semantics, and the `if/elif` chain of relative phrases.
  - The parser's result is a `Result`, with `ValueError` and `OverflowError` as failures.
- `article_search.dfy` (`ArticleSearch`):
  - the fetch, as a filter over the table's rows whose result order is left open;
  - the search pipeline, with the vector index's reply, the store and `today` as inputs.
- `summarization.dfy` (`Summarization`):
  - the summarisation model and the word count are parameters: `(text, max_length, min_length) -> Option<string>` and `string -> nat`;
  - both Python functions are methods with their loops, proved equal to specification functions (`BatchOutcome`, `ParallelOutcome`);
  - lemmas about those functions state lengths, order and the error path.

Behaviour of the code worth knowing, which the model follows:

- The code has no month-name rule: "march 2022" matches none of the year patterns, so unless a relative phrase is present it gets the 30-day default window.
- "yesterday" gives the window from yesterday to today. "last month" gives the first of the previous month to today.
- The fetch has no `ORDER BY`. No order is promised; results are not sorted by date.
- Hit ids are not de-duplicated before the fetch. `id IN (…)` returns each stored row once whatever the repetitions, so no row is duplicated anyway (`ArticleSearch.SelectedCount`).
- Date parsing can raise:
  - the year `0000` makes `datetime(0, 1, 1)` raise;
  - near 0001-01-01, the `timedelta` subtractions overflow.

  The search turns both into an empty result.
- An empty id list would make the fetch issue `id IN ()`, which raises. The fetch models that as a failure. Search never reaches it, because it returns early when there are no hits.

`parallel_summarize` submits one call of `summarize_texts_in_batch` per slice of `batch_size` texts, but does not pass `batch_size` on. Each chunk is therefore summarised with the default inner batch size of 10 (`Summarization.DefaultBatchSize`).

On the error path, `summarize_texts_in_batch` keeps the completed batches and appends one `"Error"` per input text. So after a failure beyond the first batch the result is longer than the input (`Summarization.OutcomeLength`). Through `parallel_summarize` this can only happen when `batch_size` exceeds 10 (`Summarization.ParallelLength`).

## Model

| member | source | states |
|---|---|---|
| CivilDate.PrevDay | src/query_search.py:58-60 | one day back is a valid date one ordinal earlier; fails exactly at 0001-01-01 |
| CivilDate.SubDays | src/query_search.py:58 | `d - timedelta(days=n)` is valid, has ordinal `Ordinal(d) - n` and is not after `d`; fails exactly when `n >= Ordinal(d)` (Python's OverflowError) |
| CivilDate.SubOneDay | src/query_search.py:60 | subtracting one day is stepping back one day |
| CivilDate.SubDaysExact | src/query_search.py:58 | the date obtained is the only valid date whose ordinal is `n` less, in both directions |
| CivilDate.OrdinalOrder | src/query_search.py:58-69 | the ordinal the subtractions go through orders dates chronologically, for both < and <= |
| CivilDate.OrdinalInjective | src/query_search.py:58-69 | distinct valid dates have distinct ordinals |
| CivilDate.FirstOfMonth | src/query_search.py:62 | `replace(day=1)` is a valid date with the same year and month and day 1, `day - 1` days earlier |
| CivilDate.YearBounds | src/query_search.py:54 | the pair is `datetime(y, 1, 1)` and `datetime(y, 12, 31)`; it exists exactly for years 1 to 9999, is ordered and spans the days of the year |
| CivilDate.YearBoundsContain | src/query_search.py:54 | a valid date lies within the two bounds exactly when it is in year y |
| DateQuery.Lower | src/query_search.py:40 | definition of `query.lower()`, letter by letter on ASCII capitals; no capital left and idempotence in `LowerIdempotent`, irrelevance of case to the parse in `ParseIgnoresCase` |
| DateQuery.LowerIdempotent | src/query_search.py:40 | after lower-casing no capital letter is left, and lower-casing again changes nothing |
| DateQuery.MatchesAt | src/query_search.py:43-47 | definition of the three pattern shapes `in dddd`, `year dddd` and `dddd year`, character by character with ASCII digits; the leftmost match in `MatchYearLeftmost`, the order of the patterns in `YearPatternPrecedence`, a concrete match in `InYearExample` |
| DateQuery.CapturedYear | src/query_search.py:53 | `int(match.group(1))` of four digits lies in 0..9999 |
| DateQuery.SearchFrom | src/query_search.py:51 | the scan finds a match at or after i with no match between i and it, or reports that there is none |
| DateQuery.MatchYear | src/query_search.py:51-53 | definition: the leftmost match of one pattern, then its four digits read as a number; occurrence, leftmost position and range in `MatchYearLeftmost` |
| DateQuery.MatchYearLeftmost | src/query_search.py:50-53 | a pattern yields a year exactly when it occurs somewhere, and the year is the digits of its leftmost occurrence |
| DateQuery.FirstYear | src/query_search.py:50-54 | definition of the loop over the patterns, stopping at the first that yields a year; its meaning in `FirstYearSpec` |
| DateQuery.FindYear | src/query_search.py:43-54 | definition: the loop over the three patterns in their listed order; the order in `YearPatternPrecedence`, the fall-through in `NoYearFound` |
| DateQuery.FirstYearSpec | src/query_search.py:50-54 | the pattern loop yields nothing exactly when no pattern matches; otherwise the year of the first pattern that matches |
| DateQuery.NoYearFound | src/query_search.py:50-56 | a query with no year phrase falls through the pattern loop to the relative phrases |
| DateQuery.YearPatternPrecedence | src/query_search.py:43-54 | `in dddd` is tried before `year dddd`, which is tried before `dddd year` |
| DateQuery.Contains | src/query_search.py:57-63 | definition of the substring test `phrase in query`; the chain of tests in `KeywordOf`, each phrase's window in `LastWeekRange`, `YesterdayRange`, `ThisMonthRange`, `LastMonthRange` and `DefaultRange` |
| DateQuery.KeywordOf | src/query_search.py:57-69 | the chosen phrase is in the query, and no phrase earlier in the chain is |
| DateQuery.RelativeStart | src/query_search.py:57-69 | every relative start that exists is a valid date not after today |
| DateQuery.ParseDateRange | src/query_search.py:25-71 | every window produced has valid dates with start <= end |
| DateQuery.ParseIgnoresCase | src/query_search.py:40 | a query and its lower-cased form give the same window |
| DateQuery.YearRuleWins | src/query_search.py:49-54 | a year phrase decides the window whatever relative phrase is present: 1 January to 31 December of the year, or a failure for year 0000 and only then |
| DateQuery.YearQueryIgnoresToday | src/query_search.py:49-54 | a year query gives the same result on every day |
| DateQuery.LastWeekRange | src/query_search.py:57-71 | "last week": today minus 7 days to today; fails exactly when that falls before 0001-01-01 |
| DateQuery.YesterdayRange | src/query_search.py:57-71 | "yesterday" without "last week": yesterday to today, not yesterday alone; fails only on 0001-01-01 |
| DateQuery.ThisMonthRange | src/query_search.py:57-71 | "this month" after the earlier phrases: the first of the month to today |
| DateQuery.LastMonthStart | src/query_search.py:63-66 | the first of this month, one day back, then the first of that month: the first of the previous month, December of the year before in January, and an overflow only in January of year 1 |
| DateQuery.LastMonthRange | src/query_search.py:57-71 | "last month" after the earlier phrases: the first of the previous month (December of the year before in January) to today; fails only in January of year 1 |
| DateQuery.DefaultRange | src/query_search.py:67-71 | no phrase: today minus 30 days to today; fails exactly when that falls before 0001-01-01 |
| DateQuery.RelativeRangeEndsToday | src/query_search.py:71 | without a year phrase every window ends today |
| DateQuery.InYearExample | src/query_search.py:44-54 | "Articles In 2023" gives 2023-01-01 to 2023-12-31 |
| ArticleSearch.Qualifies | src/query_search.py:97 | definition of the WHERE clause: an id among `ids` and a non-NULL date between the bounds, both inclusive; the fetch is stated in its terms in `FetchArticles` and `SelectedCount` |
| ArticleSearch.Selected | src/query_search.py:94-101 | definition of the rows the statement returns, taken in table order; which rows and how often in `SelectedCount` |
| ArticleSearch.SelectedCount | src/query_search.py:94-101 | the filter keeps each qualifying row as often as the table holds it and no other row; repeated ids change nothing |
| ArticleSearch.PrimaryKeyRowsOnce | src/crawler.py:97 | in a table keyed by id, as the `articles` table's primary key declares, no row occurs twice, so the fetch returns each article at most once |
| ArticleSearch.FetchArticles | src/query_search.py:74-104 | fails exactly when the store is unreachable or `ids` is empty; otherwise exactly the table's rows with an id in `ids` and a date in the inclusive window, in no promised order |
| ArticleSearch.SearchArticles | src/query_search.py:107-170 | the store is queried exactly when parsing succeeds and there are hits; every failure and every skipped fetch gives `[]`; otherwise the fetch's rows for the parsed window, none twice in a keyed table |
| Summarization.MaxLength | src/summarization.py:66 | definition of `max(20, int(words * 0.5))` in integer form; bounds in `LengthLimits` |
| Summarization.MinLength | src/summarization.py:67 | definition of `max(10, int(words * 0.3))` in integer form; bounds and min < max in `LengthLimits` |
| Summarization.LengthLimits | src/summarization.py:66-67 | max_length >= 20 and >= words/2; min_length >= 10 and >= 3*words/10; min_length < max_length |
| Summarization.SummaryOf | src/summarization.py:66-74 | definition of one model call on a text with that text's `max_length` and `min_length`; the limits in `LengthLimits`, its use in `SummariesSpec` and `FirstFailureSpec` |
| Summarization.FirstFailure | src/summarization.py:71-75 | the index of the first text the model raises on is a position of the texts; its meaning in `FirstFailureSpec` |
| Summarization.Summaries | src/summarization.py:71-77 | definition of the outputs of the inner loop, in order; their number and values in `SummariesSpec`, uniqueness in `SummariesUnique`, concatenation in `SummariesAppend` |
| Summarization.FirstFailureSpec | src/summarization.py:70-75 | the first text the model raises on, or none exactly when it raises on no text |
| Summarization.SummariesSpec | src/summarization.py:70-77 | one summary per text, in input order, each the model's output with that text's limits |
| Summarization.SummariesUnique | src/summarization.py:70-77 | a sequence holding the model's output at each position is the summaries |
| Summarization.SummarizeBatch | src/summarization.py:65-77 | the inner loop gives the batch's summaries, or stops at the first text the model raises on |
| Summarization.BatchOutcome | src/summarization.py:44-82 | definition of what summarize_texts_in_batch returns, for every batch size; `SummarizeTextsInBatch` is proved to return it, its lengths and failure-path contents are in `OutcomeLength`, its value without failures in `AllSucceedOutcome`, its small-chunk case in `SmallChunkFailsWhole` |
| Summarization.SummarizeTextsInBatch | src/summarization.py:44-82 | the result is `BatchOutcome`: placeholders only for a zero batch size, nothing for a negative one, the completed batches plus one placeholder per text after a failure, otherwise the summaries |
| Summarization.NoTextsNoSummaries | src/summarization.py:60-62 | no texts give an empty result for every batch size |
| Summarization.OutcomeLength | src/summarization.py:62-81 | for a positive batch size: one entry per text without failure; after a failure at text k the result holds the model's outputs for the texts of the completed batches, in order, and then only `"Error"` placeholders, one per input text, so it is longer than the input exactly when k lies beyond the first batch |
| Summarization.CompletedCount | src/summarization.py:62-77 | the texts of the whole batches before text k are a multiple of the batch size, at most k and within one batch of k |
| Summarization.Chunks | src/summarization.py:102-103 | definition of the consecutive slices that are submitted; coverage in `ChunksCover`, sizes in `ChunkSizes`, number in `ChunkCount` |
| Summarization.ChunksCover | src/summarization.py:102-103 | the submitted slices, joined, are the texts in order |
| Summarization.ChunkSizes | src/summarization.py:102-103 | every slice is non-empty with at most `batch_size` texts, and only the last is short |
| Summarization.ChunkCount | src/summarization.py:102-103 | there are ceil(len(texts) / batch_size) slices |
| Summarization.Flatten | src/summarization.py:104-105 | definition of extending the result with each future's result in turn; joining of runs in `FlattenAppend`, the collection loop of `ParallelSummarize` is proved to compute it |
| Summarization.ChunkOutcomes | src/summarization.py:102-105 | definition of the futures' results in submission order, each slice run with the default inner batch size; independence of slices in `ChunkOutcomesAppend`, the submission loop of `ParallelSummarize` is proved to compute it |
| Summarization.FlattenAppend | src/summarization.py:104-105 | extending the list with each result in turn: joining two runs of results is joining their joins |
| Summarization.ChunkOutcomesAppend | src/summarization.py:102-103 | each submitted slice's result depends on that slice alone, so the results of two runs of slices join |
| Summarization.ParallelOutcome | src/summarization.py:85-106 | definition of what parallel_summarize returns; `ParallelSummarize` is proved to return it, its structure in `ParallelStep` and `ParallelNoTexts`, its value without failures in `ParallelWithoutFailure`, its length in `ParallelLength` |
| Summarization.ParallelSummarize | src/summarization.py:85-106 | the result is `ParallelOutcome`: a failure for a zero batch size, nothing for a negative one, otherwise the slices' results joined in submission order |
| Summarization.ParallelStep | src/summarization.py:104-105 | the result is the first slice's result followed by the result on the remaining texts |
| Summarization.ParallelNoTexts | src/summarization.py:100-106 | with no texts the function fails only for a zero batch size, and otherwise returns `[]` |
| Summarization.SummariesAppend | src/summarization.py:70-77 | the summaries of joined texts are the joined summaries |
| Summarization.AllSucceedOutcome | src/summarization.py:62-77 | when the model raises on no text, a batch run gives one summary per text, in order, for every positive batch size |
| Summarization.ParallelWithoutFailure | src/summarization.py:85-106 | for a positive batch size, when the model never raises, each text gets its summary, in input order |
| Summarization.SmallChunkFailsWhole | src/summarization.py:79-81 | a slice of at most 10 texts on which the model raises becomes placeholders only, one per text |
| Summarization.OutcomeNotShorter | src/summarization.py:79-81 | for a positive batch size, a batch result is never shorter than its texts, and exactly as long when they fit one batch |
| Summarization.ParallelLength | src/summarization.py:100-106 | for a positive batch size, the joined result is never shorter than the input, and has exactly one entry per text when `batch_size <= 10` |

## Left out

- Vector search is not modelled: the Milvus connection, the collection load, the `SentenceTransformer` embedding, the search parameters and the limit of 50 hits are foreign calls. The index's reply is an input (`IndexReply`). Hit ids are opaque naturals.
- The database is not modelled: the MySQL connection, the cursor and the SQL text are I/O. The table is an in-memory sequence of rows; an unreachable store is the `StoreUnavailable` value.
- The spaCy model load does nothing the functions use.
- `print`, logging and `configparser` are I/O.
- The interactive `main` loop is I/O.
- `datetime.today()` is a parameter `today`. Only its date matters, because the windows are taken with `.date()`.
- `str.lower()` is modelled for ASCII letters only, and `\d` for ASCII digits only. Python also lower-cases other letters and matches other Unicode digits.
- The Hugging Face summarisation model is a parameter function; `None` stands for a raised exception. The word count `len(text.split())` is a parameter too.
- TF-IDF keyword extraction is an opaque library call.
- `summarize_articles` is database I/O around the summariser.
- Summarization.LengthLimits: the float products `int(words * 0.5)` and `int(words * 0.3)` are written as `words / 2` and `(3 * words) / 10`. Floating-point rounding is not modelled.
- Summarization.ParallelSummarize: the `ThreadPoolExecutor` is run sequentially. Since the futures are read in submission order, only the order of the results is kept; timing and concurrency are not modelled.
- Summarization.SummarizeTextsInBatch: texts are strings. An entry that is not a string, on which `split()` would raise, is not modelled.
- `src/crawler.py` and `src/vector.py` are not part of this model. They are HTTP scraping, Milvus insertion and database I/O.
