# NYT Israel–Gaza headline harvester, modelled in Dafny

`ProjectFile.py` is a script in two phases. The first phase harvests New York
Times article-search results day by day. The second turns them into a table
and analyses it.

**Harvest.** `fetch_articles_for_date` pages through the search results for
one day:
- it keeps each page's documents and asks for the next page;
- it waits out a rate-limited response and asks for the same page again;
- it stops at an empty page or at any other status.

`fetch_articles_for_period` calls it on the first of the start month and then
on every seventh day, for as long as the date is not past the last day of the
end month (`get_last_day_of_month`).

**Records.** Each document becomes one line,
`"<headline> | Published on: <date> <time>"`. The analysis phase:
- cuts that line back into `headline`, `pub_date` and `pub_time` columns;
- sorts the table by `(pub_date, pub_time)`;
- scores every headline with a keyword stance classifier,
  `search_support_opposition`.

The model has six modules, one file each:

- `Wrappers.dfy`: `Option` and `Result`.
- `Strings.dfy`: the string operations the script relies on:
  - substring search (`in`);
  - `str.split` at a fixed separator, and its inverse `Join`. The regular
    expression the script passes to pandas matches only its own literal text,
    so cutting at that literal gives the same pieces;
  - `str.replace` of one character;
  - the lexicographic order pandas uses on string columns.
- `Calendar.dfy`:
  - `get_last_day_of_month`;
  - Python's `datetime` order;
  - the day-ordinal arithmetic behind `datetime + timedelta`, proved to agree
    with the schoolbook month rollover for steps of up to four weeks.
- `Harvest.dfy`: both fetch loops, as methods proved against specification
  functions.
  - The search endpoint is an oracle: a finite script of `Response(status, docs)`
    values, consumed one per request.
  - A request is recorded as `(date, page)`.
  - Each rate-limit cooldown is counted.
- `Records.dfy`:
  - the timestamp normalisation and the article line;
  - the two pandas splits, including pandas' refusal when the split width is
    not two;
  - the two-key sort.
- `Stance.dfy`: the stance classifier.

The fetch methods take the response script as a parameter. They return the
article lines together with what the model observes of the outside world:
- the requests issued;
- the number of 60-second cooldowns waited;
- the unread rest of the script.

The source sleeps 60 seconds, although its comment says 10. The model follows
the code: `RateLimitCooldown` is 60, and `Harvest.RetryAfterRateLimit` states
that two cooldowns wait 120 seconds.

## Model

| member | source | states |
|---|---|---|
| Calendar.LastDayOfMonth | ProjectFile.py:58-64 | The month length is always between 28 and 31, for any month number, as the code has no guard; `Calendar.MonthLengths` gives each month's length |
| Calendar.MonthLengths | ProjectFile.py:58-64 | Months 1, 3, 5, 7, 8, 10 and 12 have 31 days; every other month number except 2 has 30, including 4, 6, 9, 11 and the out-of-range 0 and 13 |
| Calendar.FebruaryLength | ProjectFile.py:62-63 | February has 29 days exactly in Gregorian leap years (2000 and 2024 yes, 1900 and 2023 no) |
| Calendar.MonthLengthsSum | ProjectFile.py:58-64 | The twelve month lengths add up to 366 in a leap year and 365 otherwise |
| Calendar.DaysBeforeYearClosedForm | ProjectFile.py:62 | Counting year lengths from year 1 agrees with the closed form 365·(y−1) + ⌊(y−1)/4⌋ − ⌊(y−1)/100⌋ + ⌊(y−1)/400⌋ |
| Calendar.DateLe | ProjectFile.py:52 | `current_date <= end_date`: year, then month, then day compared in turn; `DateLeIsDayNumberLe` proves it is ordinal order |
| Calendar.DateLeIsDayNumberLe | ProjectFile.py:52 | The `datetime` comparison `current_date <= end_date` (year, month, day lexicographic) holds exactly when the first date's ordinal is not larger |
| Calendar.DayNumberInjective | ProjectFile.py:49-54 | Two valid dates with the same ordinal are equal |
| Calendar.FromDayNumber | ProjectFile.py:54 | Every ordinal n ≥ 0 has a valid date whose ordinal is n |
| Calendar.FromDayNumberOfDayNumber | ProjectFile.py:54 | Converting a valid date to its ordinal and back gives the same date |
| Calendar.AddDays | ProjectFile.py:54 | `d + timedelta(days=k)` is a valid date whose ordinal is k more than d's |
| Calendar.StepForward | ProjectFile.py:54 | The week step `current_date += timedelta(weeks=1)` as the loop performs it: add the days, then roll over into the next month (and year) while the day passes the month's length; `StepForwardDayNumber` and `AddDaysIsStepForward` prove it is `timedelta` addition |
| Calendar.StepForwardDayNumber | ProjectFile.py:54 | The month/year rollover rule moves a valid date exactly k days forward, for 0 ≤ k ≤ 28, and yields a valid date |
| Calendar.AddDaysIsStepForward | ProjectFile.py:54 | `timedelta(weeks=1)` arithmetic and the rollover rule give the same date |
| Harvest.FetchDay | ProjectFile.py:16-43 | One day's fetch reads the script up to exactly one stopping response (an empty 200 page or a status other than 200 and 429) |
| Harvest.FetchDayStep | ProjectFile.py:28-43 | Per status: a 200 page with documents keeps them and moves to page+1; a 429 adds one cooldown, keeps nothing and retries the same page; an empty 200 page or another status issues that request and stops with nothing more |
| Harvest.FetchArticlesForDate | ProjectFile.py:13-44 | The `while True` loop returns the formatted lines of exactly the documents `FetchDay` gathers from page 0, in order, and the same requests, cooldowns and unread script |
| Harvest.AppendPage | ProjectFile.py:30-34 | The `for doc in docs` loop appends the formatted line of each document, in order, to the accumulated articles |
| Harvest.FormatDocs | ProjectFile.py:30-34 | The article lines of a run of documents: `FormatArticle` of each, in order; see `FormatDocsShape`, `FormatDocsConcat` |
| Harvest.FormatDocsConcat | ProjectFile.py:30-34 | Formatting two runs of documents in a row gives the lines of the first run followed by those of the second |
| Harvest.FormatDocsShape | ProjectFile.py:30-34 | One article line per document, the k-th being the headline, the separator and the formatted `pub_date` of the k-th document |
| Harvest.FirstStop | ProjectFile.py:35-36 | Index of the first stopping response: it stops the day, and no earlier one does |
| Harvest.FetchDayRest | ProjectFile.py:16-43 | A day issues one request per response up to and including the first stopping one, and leaves the script just after it |
| Harvest.FetchDayDocs | ProjectFile.py:28-37 | A day's documents are those of the 200 responses before the first stop, in order; an error status keeps what earlier pages gave |
| Harvest.FetchDaySleeps | ProjectFile.py:38-40 | A day waits one cooldown for each 429 response before the first stop |
| Harvest.FetchDayRequests | ProjectFile.py:15-40 | The j-th request asks for the day and for the start page plus the number of pages with documents received before it: the page starts at 0, grows by one only after a non-empty 200 page, and a 429 asks again for the same page |
| Harvest.RequestsCons | ProjectFile.py:37-40 | Before the stop, a request is followed by those of the rest of the day, from the next page or the same one |
| Harvest.PagesThenEmpty | ProjectFile.py:16-37 | N pages with documents and then an empty page give N+1 requests, the pages' documents in order, no cooldown, and stop right after the empty page |
| Harvest.RetryAfterRateLimit | ProjectFile.py:38-40 | Two 429s, a page with a document and an empty page: page p is asked three times and p+1 once, with two cooldowns that wait 120 seconds in all, and the document is kept |
| Harvest.ErrorKeepsEarlierPages | ProjectFile.py:41-44 | An error status after a page with documents ends the day without raising and returns that page's documents |
| Harvest.Walk | ProjectFile.py:51-54 | The dates the `while current_date <= end_date` loop visits from a given date: that date and the walk from a week later while it is not past the end, nothing once it is; see `WalkShape`, `WalkStep` |
| Harvest.WalkShape | ProjectFile.py:51-54 | The k-th date of the weekly walk has ordinal start + 7k. There are ⌊(end−start)/7⌋+1 dates when start ≤ end and none otherwise, and one more week would pass the end |
| Harvest.WalkStep | ProjectFile.py:52-54 | While the current date is not past the end, the walk is that date followed by the walk from a week later |
| Harvest.PeriodStart | ProjectFile.py:49 | `datetime(start_year, start_month, 1)` is a valid date |
| Harvest.PeriodEnd | ProjectFile.py:50 | `datetime(end_year, end_month, get_last_day_of_month(...))` is a valid date |
| Harvest.PeriodDates | ProjectFile.py:49-54 | The days `fetch_articles_for_period` fetches: the walk from the first of the start month to the last of the end month; see `PeriodDatesShape`, `StudyPeriodDates` |
| Harvest.PeriodDatesShape | ProjectFile.py:49-54 | The fetched days are valid dates between the first of the start month and the last of the end month. The first is the first of the start month, consecutive ones are exactly `timedelta(weeks=1)` apart, one more week passes the end, and there are none exactly when the start is after the end |
| Harvest.StudyPeriodDates | ProjectFile.py:72 | The run from September 2023 to January 2024 fetches 22 days, from 1 September 2023 to 26 January 2024 |
| Harvest.FetchDays | ProjectFile.py:52-53 | Fetching several days in a row consumes one stopping response per day |
| Harvest.FetchDaysCons | ProjectFile.py:53 | The period's results are the first day's followed by the other days', in call order |
| Harvest.FetchArticlesForPeriod | ProjectFile.py:47-55 | The `while current_date <= end_date` loop returns the formatted lines of the documents of every fetched day of `PeriodDates`, concatenated in call order, and the same requests, cooldowns and unread script as `FetchDays` over those days |
| Strings.IndexOf | ProjectFile.py:125-130 | The first position where a phrase occurs, or none when it occurs nowhere |
| Strings.Contains | ProjectFile.py:125-130 | `keyword in text` holds exactly when the phrase occurs at some position |
| Strings.Split | ProjectFile.py:80-84 | `str.split(sep)` gives at least one piece; joining the pieces with `sep` gives back the text, and no piece contains `sep` |
| Strings.SplitHead | ProjectFile.py:33 | The first piece is a prefix of the text, ending at the text's end or at an occurrence of the separator, with no occurrence starting earlier: it ends at the first occurrence |
| Strings.SplitAtMostOnce | ProjectFile.py:80-84 | A text cut into one piece is that piece; cut into two, it is first + sep + second |
| Strings.SplitAtFirst | ProjectFile.py:80-84 | Splitting cuts at the first occurrence of the separator |
| Strings.SplitWithout | ProjectFile.py:80-84 | A text without the separator splits into itself alone |
| Strings.ReplaceChar | ProjectFile.py:33 | `str.replace('T', ' ')` keeps the length and replaces exactly the matching characters |
| Strings.LexLeTotal | ProjectFile.py:93-97 | String order: any two strings are ordered one way or the other |
| Strings.LexLeAntisymmetric | ProjectFile.py:93-97 | String order: strings ordered both ways are equal |
| Strings.LexLeTransitive | ProjectFile.py:93-97 | String order is transitive |
| Records.FormatArticle | ProjectFile.py:34 | The f-string on that line: the headline, then the `Separator` text, then the normalised timestamp; see `FormatSplitRoundTrip`, `ArticleRoundTrip` |
| Records.FormatPubDate | ProjectFile.py:33 | The normalised timestamp replaces every `T` by a space and stops just before the first `+` (or at the end); it holds no `+` and no `T` |
| Records.FormatPubDateIdempotent | ProjectFile.py:33 | Normalising twice is normalising once |
| Records.FormatIsoTimestamp | ProjectFile.py:33 | `YYYY-MM-DDThh:mm:ss+zone` becomes `YYYY-MM-DD hh:mm:ss` |
| Records.SplitColumns | ProjectFile.py:80-84 | Both `str.split(..., expand=True)` assignments: every line cut at the separator into `headline` and `pub_info`, then `pub_info` cut at a space into `pub_date` and `pub_time`, failing when either split is not two columns wide; see `SplitColumnsSucceeds`, `SplitColumnsLossless` |
| Records.Width | ProjectFile.py:80-84 | `expand=True` yields as many columns as the widest row has pieces (0 for no rows) |
| Records.SplitColumnsSucceeds | ProjectFile.py:80-84 | Assigning both splits to two columns succeeds exactly when no line has more than two pieces at either split, some line holds the separator, and some line has both a date and a time; an empty table fails |
| Records.SplitColumnsLossless | ProjectFile.py:80-84 | A successful split gives one row per line; each row rebuilds its line, and a row has no date exactly when its line has no separator |
| Records.RowOfLossless | ProjectFile.py:80-84 | A line with at most two pieces at each split is rebuilt exactly from its row |
| Records.PubInfoLossless | ProjectFile.py:84 | The `pub_info` cell is its date, followed by a space and its time when there is one |
| Records.SplitCount | ProjectFile.py:80 | A line splits into two or more pieces exactly when it contains the separator |
| Records.WidthIsTwo | ProjectFile.py:80-84 | The split is two columns wide exactly when no row has more than two pieces and some row has two |
| Records.SeparatorFirstAt | ProjectFile.py:80 | In headline + separator + rest, the separator first occurs right after the headline, unless it already occurs in the headline followed by one space |
| Records.NoSeparatorInDateTime | ProjectFile.py:80 | A date and time without spaces, joined by one space, do not contain the separator |
| Records.SplitDateTime | ProjectFile.py:84 | `"<date> <time>".split(' ')` gives exactly `[date, time]` when neither part has a space |
| Records.FormatSplitRoundTrip | ProjectFile.py:80-84 | Formatting then splitting recovers the headline, date and time, both for the row and for a one-line table, when the date and time hold no space and the separator does not occur in the headline followed by a space. The weaker "the headline holds no separator" is not enough: a headline ending in the separator without its final space holds none, yet followed by the line's space it does, so the line would be cut inside the headline |
| Records.SplitOneLine | ProjectFile.py:80-84 | A one-line table whose line has two pieces at each split becomes exactly that line's row |
| Records.WidthOfOne | ProjectFile.py:80-84 | A single row is as wide as its own pieces |
| Records.ArticleRoundTrip | ProjectFile.py:80-84 | A document with an API timestamp `date T time + zone` comes back out of the table as its headline, `date` and `time` |
| Records.RowLe | ProjectFile.py:97 | The key of `sort_values(by=['pub_date', 'pub_time'])`: `pub_date` first, `pub_time` on a tie, empty cells last; see `RowLeTotal`, `RowLeTransitive` |
| Records.CellLeTotal | ProjectFile.py:93-97 | The order on a nullable column (values ascending, NaN last) is total |
| Records.CellLeAntisymmetric | ProjectFile.py:93-97 | Cells ordered both ways are equal |
| Records.CellLeTransitive | ProjectFile.py:93-97 | The cell order is transitive |
| Records.RowLeTotal | ProjectFile.py:97 | Any two rows are ordered by `(pub_date, pub_time)` one way or the other |
| Records.RowLeTransitive | ProjectFile.py:97 | The `(pub_date, pub_time)` order is transitive |
| Records.InsertRowPermutes | ProjectFile.py:93-97 | Inserting a row adds that row and keeps every other |
| Records.InsertRowKeepsOrder | ProjectFile.py:93-97 | Inserting into a sorted table keeps it sorted |
| Records.SortRows | ProjectFile.py:93-97 | `sort_values(by=['pub_date', 'pub_time'])` as insertion by `RowLe`; see `SortRowsSorted`, `SortRowsPermutes` |
| Records.SortRowsSorted | ProjectFile.py:93-97 | The sorted table is ordered by `(pub_date, pub_time)` |
| Records.SortRowsPermutes | ProjectFile.py:93-97 | The sorted table holds exactly the input rows (as a multiset) |
| Records.Normalize | ProjectFile.py:80-97 | The two splits followed by the sort, passing on a split failure; see `NormalizeCorrect` |
| Records.NormalizeCorrect | ProjectFile.py:80-97 | Split-then-sort succeeds exactly when the split does. The result is sorted and is a permutation of the rows the lines split into |
| Stance.AnyKeywordIn | ProjectFile.py:125-130 | A scan over a phrase list finds a match exactly when some phrase of the list occurs in the text |
| Stance.SearchSupportOpposition | ProjectFile.py:122-131 | The stance is in {-1, 0, 1}. It is 1 exactly when a support phrase occurs (whatever else occurs), −1 exactly when no support phrase and some opposition phrase occurs, and otherwise 0 |
| Stance.ContainsPlaced | ProjectFile.py:125-130 | A phrase placed inside a text is found there |
| Stance.TooLongToOccur | ProjectFile.py:125-130 | A phrase longer than the text is never found |
| Stance.SupportWins | ProjectFile.py:125-127 | A headline holding "stands with Israel" and "Hamas Attack" is scored 1: support phrases are tried first |
| Stance.OppositionExample | ProjectFile.py:128-130 | "Genocide" alone is scored −1 |
| Stance.CaseSensitive | ProjectFile.py:125-130 | "GENOCIDE" is scored 0: matching is case-sensitive |

## Left out

- The HTTP request, URL construction and JSON decoding (ProjectFile.py:18-29): the endpoint is a script of responses. A request is recorded as its date and page, without the query text or the API key.
- `time.sleep(60)` and the `print` messages: cooldowns are counted, nothing waits and nothing is printed.
- Harvest.FetchArticlesForDate, Harvest.FetchArticlesForPeriod: each requires the script to hold enough stopping responses (one per fetched day). The source has no retry cap and no page cap. It never returns against an endpoint that rate-limits forever, nor against one that keeps serving non-empty 200 pages, since only an empty page or another status ends the day; neither run is modelled.
- Harvest.FetchArticlesForPeriod: the week step is written with the month/year rollover rule, and `Calendar.AddDaysIsStepForward` proves it equal to ordinal addition of seven days. `datetime`'s year-9999 upper bound (an `OverflowError` past it) is not modelled; years are unbounded above.
- Harvest.FetchArticlesForPeriod: the `ValueError` that `datetime(...)` raises for a month outside 1..12 or a year below 1 is excluded by the requires.
- `pd.to_datetime` on `pub_date` (ProjectFile.py:87) is not modelled: dates are compared as strings, which is the same order for zero-padded `YYYY-MM-DD` values.
- Records.SortRowsSorted: the order among rows with equal `(pub_date, pub_time)` is not stated. pandas' default sort does not promise one; the model keeps input order.
- The conditional re-sort on line 96 is modelled only as its final result. The `pub_time` column always exists after the split, so that result is the two-key sort.
- The DataFrame construction, the CSV write and re-read and the column drops (ProjectFile.py:77, 90, 100, 103, 106) are plumbing without logic of their own.
- The date filter on ProjectFile.py:109 is a plain pandas mask.
- TextBlob sentiment (ProjectFile.py:112-116): a foreign library returning floats.
- The spaCy model load (ProjectFile.py:119) is never used.
- The weekly `resample('W-SUN').mean()` (ProjectFile.py:140): pandas bucketing over floats.
- Plotting (ProjectFile.py:143-165): user interface output.
- dotenv and the API key (ProjectFile.py:9-10, 66): configuration only.
