# custom_rss_feed: date normalisation, journal dispatch and feed assembly

This project models, in Dafny, the core of `main.py` of the custom RSS feed
generator. The generator scrapes the research listings of Cell, Nature and
Science and merges them into one RSS 2.0 feed. The model covers:

- `parse_date`, which turns the date text found on a listing page into a
  timezone-aware datetime. It strips the text and drops a label such as
  "Published:". It then tries `datetime.fromisoformat` with "Z" rewritten
  as "+00:00". If that fails, it tries four `strptime` formats in order.
- `ensure_timezone`, which makes a possibly missing or naive datetime
  comparable: missing means 1970-01-01 UTC, and naive means UTC.
- `JOURNAL_CONFIGS` and `PARSER_MAP`, plus `parse_journal`. `parse_journal`
  dispatches to a journal's page parser and keeps the articles with a
  non-empty title and link.
- The gathering loop of `main`, which concatenates the journals' article
  lists in configuration order.
- The article handling of `build_feed`:
  - a stable sort, newest first, keyed by `ensure_timezone(published)`;
  - one pass that keeps the first article of each link in sorted order;
  - the mapping of each surviving article to an RSS item.

Times are integers counting microseconds:

- A `DateTime` is a wall-clock reading plus an optional UTC offset.
  `None` is a naive datetime.
- Aware datetimes compare by the instant `wall - offset`, as Python
  compares them.
- The calendar arithmetic is the proleptic Gregorian count Python's
  `date.toordinal()` uses.

Modules:

- `Wrappers` defines `Option`.
- `Text` models `str.strip`, `str.startswith`, `str.split(sep, 1)` and
  `str.replace`.
- `Times` models aware and naive datetimes and `ensure_timezone`.
- `Calendar` models the day count.
- `Strptime` models the two numeric formats, `%Y-%m-%d` and
  `%Y-%m-%dT%H:%M:%S`, digit by digit as CPython's `_strptime` matches
  them (ASCII digits only).
- `Dates` models `parse_date`.
- `Journals` models the registry, `parse_journal` and the gathering loop.
- `Feed` models `build_feed`'s sort, de-duplication and items.

Three library functions are not modelled: `datetime.fromisoformat` and the
two month-name formats `%B %d, %Y` and `%d %b %Y`. They depend on the
locale and on a large grammar, so the model takes them as parameters
(`Dates.DateLib`) and proves `parse_date`'s control flow for every choice
of them.

Some of `main.py`'s behaviour is easy to misread. The model follows the
code as written:

- **Label rule.** The label is dropped when the text contains a colon and
  does not start with "20" (main.py:108). The rule tests the prefix "20",
  not a four-digit year. So "1999: x" loses "1999:", and
  "1999-01-01T10:00:00" loses everything up to its first colon.
- **Missing dates.** A missing date sorts as 1970-01-01 UTC (main.py:238),
  not the earliest representable time. An article dated before 1970
  therefore sorts after the undated ones.
- **Duplicate links.** Duplicates are removed after sorting
  (main.py:247-256). The copy that survives is the newest one; only among
  equally new copies does the first one listed win.
  `Feed.DuplicateAcrossJournals` shows an older copy listed first losing
  to a newer copy listed later.
- **No classifier.** `include_terms` and `exclude_terms` are configured
  (main.py:40-41) but never read. There is no keyword classifier, and no
  embedded-data (JSON-LD) extraction, although main.py:230 logs
  "JSON-LD entries".
- **Dead branch.** `parts[0].strip()` in main.py:110 is never taken: the
  branch runs only when the text contains a colon, so the split has two
  parts. The `None` case of `Dates.DropLabel`'s match is unreachable for
  the same reason.

## Model

| member | source | states |
|---|---|---|
| Text.Strip | main.py:107 | The stripped text has no whitespace at either end, in Python's `isspace` sense, and is no longer than the input. |
| Text.StripUnique | main.py:107 | For any cut of the text into whitespace, a middle with no whitespace at either end, and whitespace, `strip` returns that middle. This characterises `str.strip` independently of how it is computed. |
| Text.StripIdempotent | main.py:107-110 | Stripping an already stripped text changes nothing. |
| Text.SplitFirst | main.py:109 | `split(":", 1)` finds no separator exactly when the text holds none. Otherwise the text is head + separator + tail, and the head holds no separator. |
| Text.SplitFirstAt | main.py:109 | Splitting `a + ":" + b`, with no colon in `a`, gives exactly `(a, b)`. |
| Text.ReplaceAll | main.py:111 | After replacing every "Z" by "+00:00" no "Z" remains. A text without "Z" is unchanged. |
| Text.ReplaceAllAppend | main.py:111 | Replacement works piecewise on a concatenation. |
| Times.EnsureTimezone | main.py:236-241 | The result is always aware. A missing value becomes 1970-01-01T00:00 UTC itself: wall clock 0 with offset 0. An aware value is returned unchanged. A naive value keeps its wall clock and is read as UTC. |
| Times.WithUtc | main.py:114 | `replace(tzinfo=timezone.utc)` keeps the wall clock and makes the instant equal to it. |
| Calendar.WallMicrosMonotone | main.py:116-119 | Of two valid calendar readings, the chronologically earlier one gives a strictly smaller instant. So parsed dates sort in calendar order. |
| Calendar.WallMicrosInjective | main.py:116-119 | Distinct valid readings give distinct instants. |
| Strptime.CheckedLeapDay | main.py:119 | 29 February is accepted exactly in the Gregorian leap years 1..9999: divisible by 4, and by 400 if by 100. |
| Strptime.CheckedThirtyFirst | main.py:119 | The 31st is accepted exactly in January, March, May, July, August, October and December of the years 1..9999. |
| Strptime.CheckedThirtieth | main.py:119 | The 30th is accepted in every month but February of the years 1..9999. |
| Strptime.CheckedDayRange | main.py:119 | Days 1..28 are accepted in every month of the years 1..9999. Days below 1 or above 31 are never accepted. |
| Strptime.CheckedTimeOfDay | main.py:119 | The time of day is checked apart from the date: hours 0..23, minutes 0..59, seconds 0..59. So the seconds 60 and 61 that `%S` matches are refused. |
| Strptime.ParseIsoDate | main.py:116-119 | A `%Y-%m-%d` match is a valid date at midnight. |
| Strptime.ParseIsoDateTime | main.py:116-119 | A `%Y-%m-%dT%H:%M:%S` match is a valid reading. |
| Strptime.IsoDateRoundTrip | main.py:116-119 | Every valid date formatted as `%Y-%m-%d` parses back to itself. |
| Strptime.IsoDateTimeRoundTrip | main.py:116-119 | Every valid reading formatted as `%Y-%m-%dT%H:%M:%S` parses back to itself. |
| Strptime.IsoDateUnpadded | main.py:116-119 | `%m` and `%d` accept one digit: "2024-3-3" is 3 March 2024. |
| Strptime.IsoRejectsMissingDay | main.py:118-121 | "2023-02-29" is refused, because the day does not exist. |
| Strptime.IsoRejectsTrailing | main.py:118-121 | The pattern must consume the whole text: "2024-03-03x" is refused. |
| Dates.DropLabel | main.py:108-110 | When the label rule does not fire, the text is kept. When it fires, the result is shorter and has no surrounding whitespace. |
| Dates.DropLabelCuts | main.py:108-110 | A text `p + ":" + rest`, with no colon in `p` and not starting with "20", becomes `rest` stripped. |
| Dates.DropLabelKeepsYear | main.py:108 | A text starting with "20" is never cut, whatever colons it holds. |
| Dates.DropLabelKeepsColonFree | main.py:108 | A text without a colon is never cut. |
| Dates.Clean | main.py:107-110 | The text the parsers see has no surrounding whitespace. |
| Dates.CleanLabelledDate | main.py:107-110 | "Published: March 3, 2024" is cleaned to "March 3, 2024". |
| Dates.CleanReceived | main.py:107-110 | "Received: 2024-3-3" is cleaned to "2024-3-3". |
| Dates.CleanIsoTimestamp | main.py:107-111 | "2024-03-03T10:00:00Z" is not cut at its colons, and its ISO candidate is "2024-03-03T10:00:00+00:00". |
| Dates.IsoCandidate | main.py:111 | The ISO candidate holds no "Z". |
| Dates.IsoCandidateTrailingZ | main.py:111 | A trailing "Z" becomes the offset "+00:00". |
| Dates.IsoParseWins | main.py:112-114 | When `fromisoformat` accepts the candidate, its value is the result. An aware value is returned as is; a naive one is read as UTC. |
| Dates.FirstMatch | main.py:116-121 | The fallback loop gives nothing exactly when every format fails. A match is read as UTC. |
| Dates.FirstMatchIsFirst | main.py:117-121 | The first format that matches decides the result, whatever later formats would give. |
| Dates.FallbackOrder | main.py:115-121 | When the ISO attempt fails, the first matching fallback format, in the order of main.py:116, gives the result, read as UTC. |
| Dates.NumericDateFallback | main.py:115-121 | A numeric date refused by the ISO attempt and the month-name formats is read by `%Y-%m-%d` as its calendar instant in UTC. |
| Dates.ParseDate | main.py:103-122 | A missing or empty value gives nothing. Every result is timezone-aware. |
| Dates.ParseDateAbsent | main.py:103-122 | For a non-empty text, nothing is returned exactly when the ISO attempt and every fallback format fail on the cleaned text. |
| Journals.KeepValid | main.py:231 | The filter keeps exactly the articles with a non-empty title and link, with their multiplicities, and nothing else. |
| Journals.KeepValidAppend | main.py:231 | The filter keeps the input order: it works piecewise on a concatenation. |
| Journals.KeepValidKeepsValid | main.py:231 | A list of valid articles passes unchanged. |
| Journals.KeepValidIdempotent | main.py:231 | Filtering twice is filtering once. |
| Journals.ParseJournal | main.py:224-233 | A journal without a parser gives no articles. Otherwise the result is exactly the parser's valid articles, and only valid ones. |
| Journals.ConfiguredJournalsHaveParsers | main.py:44-73 | Every configured journal has an entry in `PARSER_MAP`, and no journal name is configured twice. |
| Journals.Gather | main.py:279-283 | The gathered articles are all valid; no journals give no articles. |
| Journals.GatherAppend | main.py:279-283 | Each journal's articles form one block of the gathered list, after the blocks of the journals configured before it. |
| Feed.KeyMeaning | main.py:249 | The sort key is a UTC instant. A missing date gives 0, the 1970 epoch. An aware date gives its wall clock minus its offset. A naive date gives its wall clock, read as UTC. |
| Feed.Insert | main.py:247-251 | Inserting into a newest-first list keeps it newest-first and adds exactly the one article. |
| Feed.SortByRecency | main.py:247-251 | The sort is newest first and a permutation of its input. |
| Feed.SortStable | main.py:247-251 | Articles with equal keys keep their input order, as Python's stable `sorted(..., reverse=True)` keeps them. |
| Feed.SortUnique | main.py:247-251 | Any newest-first arrangement that keeps each key's articles in input order is the sort's result. This is the independent specification of the stable sort. |
| Feed.DedupFrom | main.py:253-256 | The kept articles are the input with some articles left out, the rest in input order. |
| Feed.DedupFromLinks | main.py:253-256 | The kept articles have pairwise distinct links, and their links are exactly the input links not already seen. |
| Feed.DedupFromAppend | main.py:253-256 | The pass works piecewise: over `a + b` it gives the pass over `a`, then the pass over `b` with the links of `a` marked seen as well. |
| Feed.DedupFromFirstWins | main.py:253-256 | Every kept article is the first in the pass's input with its link. |
| Feed.DedupFromSorted | main.py:253-256 | Dropping repeats from a newest-first list keeps it newest-first. |
| Feed.Survivors | main.py:246-256 | The articles the feed is built from, sorted and then de-duplicated, are all input articles. |
| Feed.SurvivorsDistinct | main.py:246-256 | No two articles of the feed share a link. |
| Feed.SurvivorsCoverLinks | main.py:246-256 | Every link of the input appears in the feed, and no other. |
| Feed.SurvivorsCount | main.py:246-256 | The feed has exactly as many articles as the input has distinct links. |
| Feed.SurvivorsSorted | main.py:246-256 | The feed is newest first. |
| Feed.SurvivorsStable | main.py:246-256 | For every key, the feed's articles with that key are the input's articles with that key, some left out and the rest in input order. |
| Feed.DedupFromListedBefore | main.py:253-256 | Of two kept articles, the earlier one is listed in the pass's input before the later one is first listed. |
| Feed.ListedBeforeAsymmetric | main.py:246-256 | "Listed before" never holds both ways, so the order clauses below fix the order of every two articles. |
| Feed.SurvivorsKeepInputOrder | main.py:246-256 | Of two equally new articles in the feed, the one placed first is listed in the input, among the articles of their key, before the other is first listed. |
| Feed.RepeatedListing | main.py:246-256 | An article listed twice around an equally new one, as in `[x, y, x]`, gives the feed `[x, y]`. The order `[y, x]` is excluded. |
| Feed.SurvivorIsNewestFirst | main.py:246-256 | The article kept for a link is at least as new as every input article with that link. Among the equally new ones, it is the first in input order. |
| Feed.ItemsOf | main.py:257-264 | Each article gives one item, in order. |
| Feed.ItemsPass | main.py:252-265 | The loop with its set of seen links produces the items of the de-duplicated articles. |
| Feed.FeedItems | main.py:244-265 | The feed's items number exactly the distinct input links. Their links are distinct and cover every input link. They come newest first by `pubDate`, and of two equally new items, the first one's article is listed before the other's is first listed. |
| Feed.BuildItems | main.py:244-265 | The items are those of the surviving articles. Each item's title is the journal name, ": " and the article title. Its link and its permalink GUID are the article link, its description is the summary, and its `pubDate` is the article's date. They number exactly the distinct input links, their links are distinct and cover every input link, and they come newest first. Of two equally new items, the first one's article is listed before the other's is first listed. |
| Feed.DuplicateAcrossJournals | main.py:244-265 | An older copy of an article listed before a newer copy loses to it, and an undated article comes last. |

## Left out

- `fetch_html`, its retry policy and `TRUST_HEADERS` (main.py:76-100) are network I/O. The gathering loop takes the fetched pages as a parameter.
- `parse_cell`, `parse_nature` and `parse_science` (main.py:130-214) select HTML elements through BeautifulSoup and resolve links with `urljoin`. They are modelled as an abstract extractor per parser (`Journals.Extractor`). The properties of `parse_journal` and `main` hold for every extractor.
- `text_or_empty` (main.py:125-127) is part of the HTML parsers and is left out with them.
- `datetime.fromisoformat` and the month-name formats `%B %d, %Y` and `%d %b %Y` are parameters (`Dates.DateLib`), not definitions. They depend on the locale and on the ISO 8601 grammar of the Python version in use.
- Strptime.ParseIsoDate: accepts ASCII digits only. CPython's `\d` also matches other Unicode decimal digits.
- Strptime.ParseIsoDateTime: accepts ASCII digits only, for the same reason. CPython's `\d` and `int()` also accept other Unicode decimal digits.
- The RSS channel (`rfeed.Feed`, its title, description, language and `lastBuildDate`) and the XML serialisation (main.py:266-274) are left out. The model stops at the item list.
- `get_feed_link` (main.py:21-23) reads an environment variable. The result only names the channel, which is not modelled.
- Writing `feed.xml` (main.py:285) and the `print` logging (main.py:230, 232, 281) are I/O.
- In `ensure_timezone`, `if not value` can only catch `None`, because a `datetime` is always truthy in Python 3. The model therefore tests for absence only.
