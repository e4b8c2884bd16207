# fin-beachvolley event listing, modelled in Dafny

This project models the text-to-event core of the Finnish beach volleyball
scraper (`parse.py`). Each anchor of the tournament menu carries a name and
compact Finnish dates such as `12.-14.7`, `5.6. 8.6.` or `1.1.10`. The core
turns these into `YYYY-MM-DD` date strings and builds events
`[series, name, start, end]`. It then filters the events by the
command-line search words and truncates them to the limit. On request it
sorts them by `(start, series, name)`. Events that ended before today are
dropped, and a `None` gap marker goes at each boundary of a run of events
that lie at most one day apart.

Modules, following the functions of `parse.py`:

- `Wrappers`: `Option` (Python's `None`) and `Result` (a raised exception).
- `PyStrings`: the `str` operations the code uses, on `seq<char>`. These are
  `strip()`, `strip(" .")`, `split` with its inverse `join`, `casefold()`, the
  substring test `in`, and the string `<` used by the sort.
- `Numerals`: `int(s)` on digit strings, `str(n)` and `f"{n:02d}"`.
- `Calendar`: the parts of `datetime.date` the code uses: `fromisoformat`,
  `toordinal` (whose differences are `(second - first).days`) and date
  comparison. `IsoFormat` is not called by the code; it is the model's
  inverse of `fromisoformat`, there to state `IsoRoundTrip`.
- `DateRange`: `parse_date` and `parse_date_range`. Each loop of the source
  is a method proved equal to a specification function. The properties are
  proved about those functions.
- `DateRangeExamples`: the `test_parse_date_range` cases, plus the edge cases
  of no calendar check, an empty piece and a lone day-only token.
- `IsoDates`: the strings `parse_date_range` returns are the ones
  `fromisoformat` reads in `add_gaps` and `filter_past`, exactly when they
  name a valid date with a four-digit year.
- `Anchors`: `strip` and `parse_event_anchor`.
- `Search`: `is_empty`, `is_in_section`, `contains` and `parse_filters`.
- `Sorting`: the in-place sort of `find_events`. It is an insertion sort on
  an `array`, proved sorted, a permutation and stable.
- `Listing`: the filter-and-limit loop of `parse_html`, and `find_events`.
- `Gaps`: `add_gaps`. Its three loops are proved against a declarative
  statement of where markers go.
- `GapsExamples`: the `test_add_gaps` cases.
- `PastFilter`: `create_past_filter` with `filter_past` and `filter_nothing`.

Inputs the original reads from elsewhere are parameters:

- the current year (`thisYear`) and today's date (`today`);
- the tokens `date_pattern.findall` returns and the offset of the first
  match (`Anchors.Anchor.found` and `firstMatch`);
- the anchor's text (`anchor.string`) and the series label `extract_series`
  finds (`Anchors.Anchor.series`).

Behaviour of `parse.py` worth knowing:

- The search looks at every field of the event, dates included
  (parse.py:76).
- `parse_event_anchor` doubles a single date into start and end
  (parse.py:32-33); `parse_date_range` returns one date per token.
- With two or more events, `add_gaps` reads `events[idx][index]` for each
  adjacent pair (parse.py:144-145), so every entry must be an event with a
  date in that field. With fewer than two events no entry is read, and the
  last loop (parse.py:160-163) copies entries as they are.
- A failed series lookup stops the program with an assertion; the series
  label is an input of the model, so that case does not arise here.
- An anchor with three date tokens gives a five-field event: series, name
  and the three dates.

## Model

| member | source | states |
|---|---|---|
| `Anchors.StripText` | parse.py:14-20 | `None` and all-whitespace text give `None`. Any other text gives its `strip()`, which is non-empty and has no whitespace at either end. |
| `Anchors.StripTextIdempotent` | parse.py:14-20 | Applying `strip` to its own result changes nothing. |
| `Anchors.ParseEventAnchor` | parse.py:23-34 | The method computes exactly the event the specification function `AnchorEvent` gives, calling the date-range method. |
| `Anchors.AnchorEventFields` | parse.py:23-34 | Blank text or no date token gives no event. A date error propagates. Otherwise the event is the series, the trimmed text before the first match, and the dates, a single date doubled. |
| `Anchors.AnchorEventDates` | parse.py:27-34 | An event has at least four fields. One token gives start = end. Two or more tokens give the resolved dates in source order. |
| `Anchors.AnchorEventName` | parse.py:30-31 | The name field has no whitespace at either end. |
| `Numerals.ZeroPadded` | parse.py:88 | `f"{n:02d}"` has exactly two characters when `n < 100` and reads back as `n` through `int()`. |
| `Numerals.NatToStringRoundTrip` | parse.py:88-111 | `int(str(n)) == n`, and `f"{n:02d}"` is `str(n)` with one leading zero for a single digit. |
| `PyStrings.Split` | parse.py:83 | `split` gives at least one piece, no piece holds the separator, and joining the pieces gives back the string. |
| `PyStrings.SplitJoin` | parse.py:83 | Splitting a join of separator-free pieces gives back the pieces. |
| `PyStrings.StripWhere` | parse.py:82 | `strip(chars)` removes exactly the maximal runs of stripped characters at both ends. The result is empty iff every character is stripped. |
| `PyStrings.CasefoldIdempotent` | parse.py:52 | Case folding twice folds no further. |
| `PyStrings.IsSubstringAt` | parse.py:52 | `needle in hay` holds iff the needle occurs at some offset. |
| `PyStrings.StrLessTransitive` | parse.py:126 | String `<` is transitive. |
| `PyStrings.StrLessTotal` | parse.py:126 | Any two strings are equal or ordered one way or the other. |
| `DateRange.ParseDate` | parse.py:81-93 | The loop builds the pieces year first from the stripped, split token, or raises on the first piece `int()` refuses. The result equals `DatePieces`. |
| `DateRange.PiecesOf` | parse.py:84-93 | The pieces parse iff every piece is numeric. Piece `k` lands at position `len-1-k`. Day and month are padded to two digits. A year below 1000 becomes `1000*(this_year//1000)+value`, any other year is kept. Otherwise the error names the first bad piece. |
| `DateRange.PiecesOfFirstError` | parse.py:86 | The first non-numeric piece, such as the empty piece of `12..24`, decides the `ValueError`. |
| `DateRange.TokenPiecesJoin` | parse.py:82-83 | A token with no space or dot at either end splits into exactly the pieces it was written from. |
| `DateRange.ParseTokens` | parse.py:100-102 | The first loop calls `parse_date` on every token in source order, stopping at the first error. |
| `DateRange.CompleteTokens` | parse.py:103-112 | The reversed in-place loop fills missing months from the previously completed list and missing years with `this_year`, and prepends the joined strings. It fails iff the last token has no month. |
| `DateRange.ParseDateRange` | parse.py:96-112 | With no token the result is `[]`. Otherwise it is both loops, and equals `ResolveRange`. |
| `DateRange.Complete` | parse.py:103-110 | Completion fails, with the assertion error, exactly when the last token in source order lacks a month. Otherwise every token is completed from the token after it in source order. |
| `DateRange.InheritedMonth` | parse.py:106-108 | A day-only token's month is that of the next token in source order that has a month. |
| `DateRange.CompleteByToken` | parse.py:103-110 | The reversed loop equals completing each token on its own terms. A token with a year is kept, a missing year is always `this_year` and never a neighbour's year, and a missing month is inherited. |
| `DateRange.ResolveRangeDates` | parse.py:96-112 | A successful range has one string per token, in source order: the dash-joined pieces of that token once completed. Fully specified tokens come out verbatim. |
| `DateRange.ResolveRangeInvalid` | parse.py:101-102 | The first token `parse_date` raises on decides the range's error. |
| `DateRange.ResolveRangeMissingMonth` | parse.py:106-107 | When every token parses, the range fails iff the last token has fewer than two pieces. |
| `IsoDates.JoinDashIso` | parse.py:111 | A completed year, month and day, dash-joined, is a `YYYY-MM-DD` text `fromisoformat` accepts iff they name a valid date whose year has four digits; the text then reads back as that date. |
| `IsoDates.CompletedShaped` | parse.py:85-110 | Every token of at most three pieces completes to a year followed by two-digit month and day text, and the year has four digits when `this_year` does. |
| `IsoDates.ResolveRangeIso` | parse.py:96-112 | For tokens of at most three pieces, each string of a successful range is its token's dash-joined year, month and day; `fromisoformat` accepts it iff that date is valid with a four-digit year, and reads it back as that date. |
| `DateRangeExamples.DayMonthGetsThisYear` | test_parse.py:31-32 | `25.7` resolves to `2024-07-25`. |
| `DateRangeExamples.ShortYearExpands` | test_parse.py:33 | `1.1.10` with 2024 resolves to `2010-01-01`. |
| `DateRangeExamples.TwoDayMonths` | test_parse.py:34-35 | `5.6` and `8.6` resolve to `2024-06-05` and `2024-06-08`. |
| `DateRangeExamples.FullTokensVerbatim` | test_parse.py:36 | `1.1.2024` and `2.1.2025` come out verbatim as `2024-01-01` and `2025-01-02`. |
| `DateRangeExamples.DayOnlyTakesNextMonth` | test_parse.py:37 | `12.` and `14.7` resolve to `2024-07-12` and `2024-07-14`. |
| `DateRangeExamples.NoCalendarCheck` | parse.py:87-92 | Day 39 of month 19 passes through as `2024-19-39`. |
| `DateRangeExamples.EmptyPieceRaises` | parse.py:86 | `12..24` raises on its empty middle piece. |
| `DateRangeExamples.LoneDayRaises` | parse.py:106-107 | A lone day-only token fails the assertion. |
| `Search.IsEmpty` | parse.py:37-45 | The result is true iff the search words are `None` or every group is empty. |
| `Search.IsInSection` | parse.py:48-57 | The result is true iff every term, casefolded, is a substring of some casefolded field. |
| `Search.Contains` | parse.py:60-66 | The result is true iff there are no terms, or some group has all its terms found. |
| `Search.EmptyGroupMatchesAll` | parse.py:60-66 | An empty group beside non-empty ones makes every event match. |
| `Search.FoundIgnoresCase` | parse.py:52 | Folding a term beforehand does not change whether it is found. |
| `Search.MatchesMoreFields` | parse.py:76 | An event that matches keeps matching when fields are added, so searching the date fields too can only add matches. |
| `Search.ContainsExamples` | test_parse.py:44-57 | The seven `contains` cases on `["Masters", "Kalajoki"]`. |
| `Search.ParseFilters` | parse.py:130-138 | The loop maps `None` to `[]`. Each value becomes one group of its stripped, non-empty comma-separated terms, in order, if it has any. |
| `Search.FiltersWellFormed` | parse.py:130-138 | No returned group is empty. Every term is non-empty, trimmed and comma-free. |
| `Search.FiltersAppend` | parse.py:133-137 | Values are handled one by one, so groups keep the order of their values. |
| `Search.FiltersRoundTrip` | parse.py:130-138 | `parse_filters` inverts writing each group as one comma-separated value, for every list of groups it can return. |
| `Search.FiltersStripsTerms` | test_parse.py:116 | `[" a\t"]` gives `[["a"]]`. |
| `Search.FirstTwoValues` | test_parse.py:117 | `["a", "b,c"]` gives `[["a"], ["b", "c"]]`. |
| `Search.LastValue` | test_parse.py:117 | `["c,,d,e"]` gives `[["c", "d", "e"]]`. |
| `Search.ThreeValues` | test_parse.py:117 | `["a", "b,c", "c,,d,e"]` gives `[["a"], ["b", "c"], ["c", "d", "e"]]`, the empty term dropped. |
| `Listing.Limited` | parse.py:78 | A negative limit keeps every event. Any other limit keeps the first `min(limit, len)` events. |
| `Listing.KeptMembers` | parse.py:74-77 | An event is kept iff it is listed, non-empty and matches. |
| `Listing.KeptAppend` | parse.py:74-77 | Filtering works on each part of the listing separately, so kept events stay in input order. |
| `Listing.KeptIdempotent` | parse.py:74-77 | Filtering twice filters no further. |
| `Listing.KeptWithoutTerms` | parse.py:74-77 | With no search terms every event is kept. |
| `Listing.ParseHtml` | parse.py:69-78 | The loop keeps the non-empty matching events in order, then truncates. The first anchor whose dates raise gives the error. |
| `Listing.HtmlEventsShape` | parse.py:73-78 | Every listed event has at least four fields and matches. A non-negative limit bounds the count. |
| `Listing.StopsAt` | parse.py:74-75 | The first anchor that raises decides the page's error. |
| `Listing.FindEvents` | parse.py:123-127 | The method equals `parse_html` followed, when `order_by == "date"`, by the in-place sort, so sorting happens after truncation. |
| `Listing.FoundEventsSorted` | parse.py:123-127 | The date-ordered result is sorted, is a permutation of the truncated listing, and keeps events with equal keys in page order. |
| `Sorting.SortByDate` | parse.py:126 | The in-place sort leaves `a[..] == SortedByKey(old(a[..]))`. |
| `Sorting.InsertLast` | parse.py:126 | One insertion step places `a[i]` into the sorted run and leaves the rest of the array alone. |
| `Sorting.SortedByKeySorted` | parse.py:126 | The result is ordered by `(e[2], e[0], e[1])`. |
| `Sorting.SortedByKeyPermutes` | parse.py:126 | The result is a permutation of the input. |
| `Sorting.SortedByKeyStable` | parse.py:126 | For every key, the events with that key keep their relative order. |
| `Sorting.StableSortIsSortedByKey` | parse.py:126 | Any stable sort by the same key, Python's included, gives the same list. |
| `Sorting.KeyLessTransitive` | parse.py:126 | The tuple key order is transitive. |
| `Sorting.KeyLessTotal` | parse.py:126 | Any two keys are equal or ordered one way or the other. |
| `Calendar.IsoRoundTrip` | parse.py:144-145 | `fromisoformat` and `isoformat` are inverse to each other. |
| `Calendar.OrdinalOrder` | parse.py:146 | Comparing dates agrees with comparing their ordinals, whose differences are `.days`. |
| `Gaps.CloseAt` | parse.py:144-146 | The method computes whether `(second - first).days <= 1` for one pair. |
| `Gaps.StepRuns` | parse.py:143-150 | Extending the last run when it ends at `idx`, and opening a new one otherwise, keeps `pairs` the ordered maximal runs of close pairs. |
| `Gaps.AddPair` | parse.py:146-150 | A close pair extends the last run in place when that run ends at `idx`, opens a new run otherwise; a far pair leaves the runs alone. |
| `Gaps.CollectPairs` | parse.py:142-150 | After the first loop, `pairs` is the ordered list of maximal runs of close adjacent pairs. |
| `Gaps.InsertedIndices` | parse.py:151-159 | The second loop collects each run's start unless it is 0, and the index after each run's end unless it is past the list. |
| `Gaps.EmitSlots` | parse.py:160-164 | The last loop puts out each event, preceded by a marker exactly when its index was inserted. |
| `Gaps.InsertedMarked` | parse.py:152-162 | An index is inserted iff the pair ending there is far and either it starts a run or the run before it just ended. |
| `Gaps.AddGaps` | parse.py:141-164 | The whole method equals `Gapped`: each event preceded by a marker exactly where `Marked` holds. |
| `Gaps.GappedPresent` | parse.py:160-164 | Deleting the `None`s from the output gives back the input exactly. |
| `Gaps.GappedShape` | parse.py:141-164 | The output starts and ends with an event, and no two markers are adjacent. |
| `Gaps.GappedNoClose` | parse.py:146 | When no consecutive pair is within a day, counting a negative difference as within, no marker is inserted. |
| `GapsExamples.OneEvent` | test_parse.py:82 | `[1]` stays `[1]`. |
| `GapsExamples.TwoEvents` | test_parse.py:83-84 | `[1, 2]` and `[1, 3]` stay as they are. |
| `GapsExamples.MarkerAfterRun` | test_parse.py:85 | `[1, 2, 4]` gives `[1, 2, None, 4]`. |
| `GapsExamples.MarkerBeforeRun` | test_parse.py:86 | `[1, 3, 4]` gives `[1, None, 3, 4]`. |
| `GapsExamples.MarkersAfterRuns` | test_parse.py:87-91 | `[1, 2, 4, 5, 7, 8, 10, 12, 14]` gives the same events with a marker before the 4th, 7th and 10th: `[1, 2, None, 4, 5, None, 7, 8, None, 10, 12, 14]`. |
| `PastFilter.CreatePastFilter` | parse.py:171-182 | `filter_past` for today is returned iff the filter is enabled, otherwise `filter_nothing`. |
| `PastFilter.Apply` | parse.py:172-180 | `filter_nothing` returns its argument. `filter_past`'s loop returns `NotPast`. |
| `PastFilter.NotPastMembers` | parse.py:175-180 | An event survives iff it is listed and its end date is today or later. |
| `PastFilter.NotPastAppend` | parse.py:175-180 | The filter works on each part of the listing separately, so it keeps the order. |
| `PastFilter.NotPastIdempotent` | parse.py:175-180 | Filtering twice with the same day filters no further. |
| `PastFilter.NotPastLater` | parse.py:175-180 | Filtering at a later day after an earlier one is filtering at the later day. |
| `PastFilter.NotPastNothingEnded` | parse.py:175-180 | When no event has ended before today, nothing is dropped. |
| `PastFilter.UpcomingOrdinal` | parse.py:178 | `end >= today` is `ordinal(end) >= ordinal(today)`. |
| `PastFilter.NotPastSorted` | parse.py:175-180 | A listing sorted by `find_events` stays sorted after the filter. |

## Left out

- `main` and `cli` are left out: the HTTP request, argument parsing and printing are I/O.
- The BeautifulSoup calls in `parse_html` and `extract_series` are left out. The series label and `anchor.string` are fields of `Anchors.Anchor`, so the assertion in `extract_series` on a missing parent is not modelled.
- The regular expression `date_pattern` is left out. The tokens `findall` returns and the offset of the first `search` match are inputs.
- `format_date` is left out because `strftime("%a ...")` depends on the locale.
- `datetime.date.today()` is left out. `thisYear` and `today` are parameters.
- `PyStrings.FoldChar` models `casefold` exactly on U+0000 to U+00FF and as the identity above that range.
- `Numerals.ParseInt` accepts only non-empty ASCII digit strings. Python's `int()` also takes signs, underscores, surrounding whitespace and non-ASCII digits, but a token of the date pattern holds only ASCII digits and dots.
- `Gaps.AddGaps`: every date field it reads must be a valid ISO date. The `ValueError` `fromisoformat` raises on a malformed date is not modelled. Its input holds events only: a `None` entry, which the code copies through unread when there are fewer than two events, is not modelled.
- `IsoDates.ResolveRangeIso`: it asks that each token have at most three dot-separated pieces, which `date_pattern` guarantees; the regular expression itself is not modelled.
- `PastFilter.Apply`: every end date must be a valid ISO date. The `ValueError` `fromisoformat` raises otherwise is not modelled.
- `Sorting.SortByDate` sorts by insertion, not Timsort. `Sorting.StableSortIsSortedByKey` shows every stable sort by the key gives the same list, so the result is Python's.
- Python's unbounded integers need no wrap-around, and the model's `int` matches them.
