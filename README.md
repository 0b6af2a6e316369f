# Compose status check, modelled in Dafny

`compose-check.py` looks at the index page of a compose server and finds the composes of one OS
name and version, for example `Fedora-ELN-Rawhide-20240102.0`. It orders them by lower-cased ID,
largest first. That is newest first when the date stamps and respin counters have equal width,
but respin `.n.9` of a day is listed before the later `.n.10`. For
each compose it reads the `STATUS` file and the compose date in
`compose/metadata/composeinfo.json`. When the metadata has no date, the date comes from the
compose ID instead. The script then computes the compose's age in days and fills three records:

- the latest attempted compose;
- the latest `FINISHED` compose;
- the latest `FINISHED_INCOMPLETE` compose.

`eln-check.py` is an earlier draft. It has the same listing, status and date logic. Its loop only
computes and logs each compose's age, so its three records keep their initial empty entries.

This project models that logic and proves what it does. Downloads, parsing and output are
replaced by inputs:

- the index page is the list of its anchors' `href` values;
- the server is a map from compose ID to the decoded `STATUS` text, and another map to the
  decoded JSON document (`Resolver.Server`);
- "today" is a parameter.

Modules, one per file:

- `Wrappers` (wrappers.dfy): `Option` and `Result`.
- `Ascii` (ascii.dfy): the parts of Python `str` the scripts use. These are `str.isspace`,
  `str.rstrip()`, `str.lower` on ASCII letters, and code-point order on strings (`LexLe`).
- `Calendar` (calendar.dfy): proleptic Gregorian dates. The day ordinal is Python's
  `date.toordinal()`, so `today - date` in days is a difference of ordinals.
- `DateText` (date_text.dfy): `datetime.strptime(text, "%Y%m%d")`. It follows CPython's regular
  expression for that format, including its one-digit month and day alternatives and its
  "unconverted data remains" rejection.
- `Lister` (lister.dfy): `get_compose_ids` / `get_composes`. It keeps the hrefs that match
  `^({name}-{version}-[^/]*)`, cuts each one at the first `/` after the prefix, and sorts the results stably by
  lower-cased text, largest first.
- `Resolver` (resolver.dfy): `compose_status`, the fallback to the date in the ID, date parsing
  and the age. It also defines the run that stops at the first compose that raises.
- `ComposeCheck` (compose_check.dfy): the `cli` loop of compose-check.py. A method fills the
  three slots in place, and it is proved equal to a fold (`Aggregate`) whose first-match meaning
  is proved separately.
- `ElnCheck` (eln_check.dfy): `get_composes`, with its defaults, and the `cli` loop of
  eln-check.py.

How the scripts stop when a date is missing or bad:

- **No date:** when neither the metadata nor the ID gives a date, both scripts call
  `logger.notice`. `logging.Logger` has no such method, so the call raises `AttributeError` and
  the run stops. The `next` that follows it is an expression with no effect. This is
  `Err(NoDateFound)`.
- **Date not a string:** a metadata date that is not a string makes `strptime` raise
  `TypeError`. This is `Err(DateNotText)`.
- **Bad date text:** a string that is not a `%Y%m%d` calendar day makes `strptime` raise
  `ValueError`. This is `Err(BadDate)`.

A JSON `null` at `payload.compose.date` is Python `None`, so it triggers the fallback to the ID.

## Model

| member | source | states |
|---|---|---|
| Lister.TakeUntilSlash | compose-check.py:33 | the result is the longest prefix of its input with no `/`: it is followed by `/` or reaches the end |
| Lister.ComposePrefix | compose-check.py:33 | the literal `{name}-{version}-` pasted into both patterns (also line 175); no contract of its own, `Lister.MatchId`, `Lister.ComposeIdsOrdered` and `Resolver.IdDate` state what it selects |
| Lister.MatchId | compose-check.py:32-46 | an href yields an ID exactly when it starts with `{name}-{version}-`; the ID starts with that prefix, has no `/` after it, and is the longest such prefix of the href |
| Lister.MatchIdCutsAtFirstSlash | compose-check.py:33 | for a prefix without `/`, the ID is the href cut at its first `/` |
| Lister.FirstSlashUnique | compose-check.py:33 | a prefix with no `/` that is followed by `/` or reaches the end is the cut at the first `/` |
| Lister.Extracted | compose-check.py:40-46 | at most one ID per href (exactly one per matching href, by `Lister.ExtractedCounts`); every ID starts with the prefix and has no `/` after it |
| Lister.MatchingPositions | compose-check.py:40-46 | no contract of its own: the positions of the hrefs that match to a given ID |
| Lister.ExtractedCounts | compose-check.py:40-46 | each ID occurs among the extracted IDs exactly as many times as there are hrefs matching to it: one ID per matching href, duplicates kept |
| Lister.MatchingPositionsSnoc | compose-check.py:40-46 | proof step for `ExtractedCounts`: one more href adds one matching position if it matches to the ID, none otherwise |
| Lister.ExtractedExactly | compose-check.py:40-46 | a string is among the extracted IDs iff some href matches to it |
| Lister.Insert | compose-check.py:48 | inserting adds exactly that one ID to the multiset of IDs |
| Lister.SortDescending | compose-check.py:48 | the sorted list is a permutation of its input, duplicates kept |
| Lister.InsertSorted | compose-check.py:48 | insertion keeps a list ordered non-increasingly by lower-cased key |
| Lister.InsertStable | compose-check.py:48 | insertion puts the new ID before the IDs with the same key, as a stable reverse sort does |
| Lister.WithKeyCons | compose-check.py:48 | proof step for `Lister.InsertStable`: the IDs with a given key in a list are those of its head followed by those of its tail |
| Lister.OfDistinctKeys | compose-check.py:48 | proof step for `Lister.InsertStable`: two IDs ordered strictly by key cannot both have the same key |
| Lister.SortDescendingSorted | compose-check.py:48 | the sort orders IDs non-increasingly by lower-cased key, largest first (newest first only when stamps have equal width) |
| Lister.SortDescendingStable | compose-check.py:48 | IDs with equal keys keep their original relative order |
| Lister.Key | compose-check.py:48 | the sort key `str.lower`; no contract of its own, its order is proved in `Lister.SortDescendingSorted` |
| Lister.ComposeIds | compose-check.py:22-48 | the ordered list of compose IDs; no contract of its own, `Lister.ComposeIdsOrdered` states what it is and `Lister.GetComposeIds` computes it |
| Lister.GetComposeIds | compose-check.py:22-48 | the loop that keeps the matching hrefs and cuts them, followed by the sort, returns exactly the ordered list of compose IDs |
| Lister.ComposeIdsOrdered | compose-check.py:22-48 | the IDs are a permutation of the extracted ones, so with `Lister.ExtractedCounts` each ID appears once per href matching to it, sorted by lower-cased key, largest first, and stable among equal keys; each starts with `{name}-{version}-` and has no `/` after it |
| Lister.TwoComposesLargerKeyFirst | compose-check.py:48 | of two slash-free stamps of one series, the one with the larger lower-cased key comes first, whatever the page order |
| Lister.LexLeCommonPrefix | compose-check.py:48 | a common prefix does not change how two IDs compare |
| Lister.DatedComposesNewestFirst | compose-check.py:168 | for any series, the composes stamped `20240101.0` and `20240102.0`, listed oldest first, come out with the later one first |
| Lister.RespinNineBeforeTen | compose-check.py:29 | the promised newest-to-oldest order does not hold across stamp widths: for any series, `20240101.n.9` is listed before the later `20240101.n.10` |
| Ascii.RStrip | compose-check.py:66 | `rstrip()` keeps a prefix of the text that does not end in whitespace, and removes only whitespace |
| Ascii.RStripIgnoresTrailingSpace | compose-check.py:66 | trailing whitespace in the STATUS text does not change the status |
| Ascii.IsSpace | compose-check.py:66 | `str.isspace` on one character, Python's whitespace set; no contract of its own, it is the whitespace of `Ascii.RStrip`'s contract |
| Ascii.LowerString | compose-check.py:48 | `str.lower`, ASCII letters only; no contract of its own, it is the key of `Lister.SortDescendingSorted` |
| Ascii.LexLe | compose-check.py:48 | Python's `<=` on strings, by code point; no contract of its own, `Ascii.LexLeTotal`, `Ascii.LexLeTransitive` and `Ascii.LexLeAntisymmetric` prove it a total order |
| Ascii.LexLeReflexive | compose-check.py:48 | Python string order is reflexive |
| Ascii.LexLeTotal | compose-check.py:48 | Python string order is total, so every pair of keys is comparable |
| Ascii.LexLeTransitive | compose-check.py:48 | Python string order is transitive |
| Ascii.LexLeAntisymmetric | compose-check.py:48 | two keys that are ordered both ways are equal |
| Resolver.Get | compose-check.py:77 | a key is absent iff no member has it; otherwise the value is that of its last occurrence |
| Resolver.Subscript | compose-check.py:77 | subscripting yields a value iff the value is an object holding the key; subscripting anything else gives no value, as the caught `TypeError` does |
| Resolver.MetadataDate | compose-check.py:70-79 | a date is returned only when the document has `payload`, then `compose`, then `date`, and it is the value found there, never `null`; with `Resolver.MetadataDateFound` the converse holds, so a missing key or a non-object gives no date rather than an error |
| Resolver.MetadataDateFound | compose-check.py:77 | a document holding a date at `payload.compose.date` yields that date |
| Resolver.ComposeStatus | compose-check.py:62-81 | the status is present iff the STATUS text is; it is that text with exactly its trailing whitespace removed; the date is the metadata date of the compose's document |
| Resolver.IdDate | compose-check.py:174-179 | a date from an ID is eight digits placed right after `{name}-{version}-` and followed by `.` and a rest that `.*$` accepts; with `Resolver.IdDateOfStampedId` this is an iff |
| Resolver.RestOfLine | compose-check.py:175 | what `.*$` accepts after the dot: no line break, or one final line break; no contract of its own, it is part of `Resolver.IdDate`'s contract and `Resolver.IdDateOfStampedId`'s requires |
| Resolver.IdDateOfStampedId | compose-check.py:174-179 | an ID made of the prefix, eight digits, `.` and a rest that `.*$` accepts yields those eight digits, the converse of `Resolver.IdDate` |
| Resolver.Resolve | compose-check.py:171-186 | on success the status is the compose's status, the date parses, and the age is the day count from it to today; the metadata date is used when present, the ID date only when it is absent; with neither the run aborts with `NoDateFound`; a metadata date that is not a string aborts with `DateNotText` |
| Resolver.MetadataDatePrecedes | compose-check.py:172 | when the metadata has a date text, resolution succeeds iff that text parses, keeps that text, and otherwise aborts with `BadDate` |
| Resolver.IdDateFallback | compose-check.py:172-186 | without a metadata date, the date in the ID is used: resolution succeeds iff its eight digits name a calendar day, keeps that text, and otherwise aborts with `BadDate` |
| Resolver.Collect | compose-check.py:169-186 | either every step succeeded and the values are theirs in order, or the error is that of the first step that failed |
| Resolver.CollectStopsAtFirstError | compose-check.py:169-186 | once an earlier compose aborts, later composes change nothing |
| Resolver.CollectAllOk | compose-check.py:169-186 | steps that all succeed collect to their values in order |
| Resolver.ResolveAllSucceeds | compose-check.py:169-186 | when every compose resolves, the scan yields their resolutions in order |
| Resolver.ResolveAllFails | compose-check.py:169-186 | the first compose that fails to resolve is the outcome of the whole scan |
| Resolver.ResolvedExtend | compose-check.py:169-186 | proof step for `ComposeCheck.Check` and `ElnCheck.Check`: a compose that resolves extends, in order, the resolutions of the composes scanned before it |
| Resolver.ResolveAll | compose-check.py:169-186 | the scan that stops at the first compose that raises; no contract of its own, its meaning is `Resolver.Collect` with `Resolver.ResolveAllSucceeds` and `Resolver.ResolveAllFails` |
| DateText.MonthFields | compose-check.py:185 | each way `%m` can match reads one or two characters and a month in 1..12; only the first can be two wide |
| DateText.DayFields | compose-check.py:185 | each way `%d` can match reads one or two characters and a day in 1..31 |
| DateText.FirstMonthDay | compose-check.py:185 | the first match of `%m%d` fits within the text |
| DateText.ParseYmd | compose-check.py:185 | an accepted text names a calendar day with a four-digit year |
| DateText.DecimalValueBound | compose-check.py:185 | proof step for `DateText.ParseYmd`: the value of n digits is below 10^n |
| DateText.TwoDigits | compose-check.py:185 | proof step for `DateText.EightDigitDates`: two digits read as tens and units |
| DateText.EightDigitDates | compose-check.py:185 | on eight digits, `strptime` reads year, month and day as 4+2+2 and accepts exactly when they name a calendar day |
| DateText.WideMatch | compose-check.py:185 | a two-digit month in 1..12 followed by a two-digit day in 1..31 is matched whole by `%m%d` |
| DateText.NarrowMatch | compose-check.py:185 | when the two-digit month or day is out of range, no match of `%m%d` covers all four characters |
| DateText.NarrowMonthsFallShort | compose-check.py:185 | when `%m` can match only one digit, `%m%d` covers at most three characters, so eight digits are rejected |
| Calendar.NextDay | compose-check.py:186 | the next day of a calendar day is a calendar day |
| Calendar.AddDays | compose-check.py:186 | a day moved forward is a calendar day |
| Calendar.IsCalendarDay | compose-check.py:185 | the validity check `datetime.date` makes, without its upper bound: year at least 1, month 1..12, day within the month; the bound year at most 9999 (`MAXYEAR`) is left out here and supplied by the four-digit year of `DateText.ParseYmd`; no contract of its own, `Calendar.NextDay` and `Calendar.AddDays` keep it |
| Calendar.Ordinal | compose-check.py:186 | `date.toordinal()`; no contract of its own, `Calendar.OrdinalNextDay` and `Calendar.OrdinalOrdersDates` prove it numbers calendar days consecutively and in order |
| Calendar.DaysBetween | compose-check.py:186 | `(today - parsed_date).days`; no contract of its own, `Calendar.DaysBetweenCountsDays` and `Calendar.DaysBetweenSign` prove it counts days with the right sign |
| Calendar.DaysBeforeYearStep | compose-check.py:186 | the ordinal of 1 January grows by the length of each year |
| Calendar.LeapCount | compose-check.py:186 | a year is a leap year by the rule of every fourth year, less every hundredth, plus every four-hundredth |
| Calendar.MultipleOf400 | compose-check.py:186 | proof step for `Calendar.LeapCount`: a multiple of 400 is a multiple of 100 |
| Calendar.MultipleOf100 | compose-check.py:186 | proof step for `Calendar.LeapCount`: a multiple of 100 is a multiple of 4 |
| Calendar.DaysBeforeMonthStep | compose-check.py:186 | the day count before a month grows by the length of each month |
| Calendar.OrdinalNextDay | compose-check.py:186 | the next day has the next ordinal |
| Calendar.OrdinalAddDays | compose-check.py:186 | moving n days forward adds n to the ordinal |
| Calendar.DaysBetweenCountsDays | compose-check.py:186 | the age of a date n days before today is n, and of a date n days after it is -n |
| Calendar.DayOfYearInRange | compose-check.py:186 | a calendar day's position in its year is between 1 and the year's length |
| Calendar.DaysBeforeYearIncreasing | compose-check.py:186 | a later year starts after every day of an earlier year |
| Calendar.DaysBeforeMonthIncreasing | compose-check.py:186 | a later month starts after every day of an earlier month |
| Calendar.OrdinalOrdersDates | compose-check.py:186 | ordinals order calendar days as the calendar does, and differ for different days |
| Calendar.DaysBetweenSign | compose-check.py:186 | the age is positive iff the date is in the past, zero iff it is today, negative iff it is in the future |
| ComposeCheck.Record | compose-check.py:198-205 | a filled slot never changes; an empty slot takes the compose exactly when it qualifies (any compose for latest attempted, status `FINISHED` or `FINISHED_INCOMPLETE` for the others) |
| ComposeCheck.Aggregate | compose-check.py:198-205 | the slots after the scan, one `Record` step per compose; no contract of its own, `ComposeCheck.AggregateFirstMatch` and `ComposeCheck.AggregateSlots` give its meaning |
| ComposeCheck.ComposeUrl | compose-check.py:192 | the `url` of a record, `{url}/{id}/`; no contract of its own, `ComposeCheck.AggregateSlots` proves every stored record carries it |
| ComposeCheck.Info | compose-check.py:190-196 | the `comp_info` record of a resolved compose: its id, its page `{url}/{id}/`, status, date and age; no contract of its own, `ComposeCheck.AggregateSlots` states which records the slots hold |
| ComposeCheck.Infos | compose-check.py:190-196 | the `comp_info` records of the resolved composes, in scan order; no contract of its own, `ComposeCheck.Check` and `ComposeCheck.AggregateSlots` are stated over it |
| ComposeCheck.Summary | compose-check.py:156-164 | the `result` record with description `{name}-{version} composes`; no contract of its own, `ComposeCheck.Check` returns it |
| ComposeCheck.FirstWithStatus | compose-check.py:201-205 | the position of the first compose whose status is exactly the given one, or none when no compose has it |
| ComposeCheck.FirstWithStatusExtends | compose-check.py:169 | scanning one more compose keeps a first match once one exists |
| ComposeCheck.AggregateFirstMatch | compose-check.py:162-164 | after the scan, latest attempted is the first compose, and latest finished and latest incomplete are the first composes with those statuses, or empty |
| ComposeCheck.AggregateKeepsFilledSlots | compose-check.py:198-205 | a slot filled part-way through the scan keeps its compose to the end |
| ComposeCheck.AggregateStep | compose-check.py:190-205 | proof step for `ComposeCheck.Check`: one more compose updates the slots by one `Record` step |
| ComposeCheck.AggregateSlots | compose-check.py:190-205 | each filled slot holds the record of the first qualifying compose, and its `url` is `{url}/{id}/`; a slot with no qualifying compose stays empty |
| ComposeCheck.FirstHolds | compose-check.py:190-205 | proof step for `ComposeCheck.AggregateSlots`: the record at the first position with a status satisfies the slot property |
| ComposeCheck.Check | compose-check.py:154-207 | the report is the aggregate of the resolutions of the listed composes, in listing order, with description `{name}-{version} composes`; if any compose aborts, the run aborts with the first such abort |
| ElnCheck.DefaultSeriesIsLiteral | eln-check.py:16 | the default name and version contain no metacharacters and give the prefix `Fedora-ELN-Rawhide-` |
| ElnCheck.GetComposes | eln-check.py:16-42 | with the defaults `Fedora-ELN` and `Rawhide`, returns the same ordered list of IDs as compose-check.py, so `Lister.ComposeIdsOrdered` applies |
| ElnCheck.Check | eln-check.py:130-158 | the run logs the resolution of every listed compose in order, or aborts with the first abort; the three records stay `{"compose": None, "date": None}` |

## Left out

- Network access (`urllib.request.urlopen`) and charset decoding. The server is given as the
  decoded text of each compose's `STATUS` file and the decoded metadata document. A missing
  entry stands for a download, decoding or JSON error, which the scripts catch.
- HTML parsing with BeautifulSoup. The index page is given as the sequence of its anchors' `href`
  values, in document order.
- `json.loads`. The metadata document is given as a `Json` value. JSON numbers are integers here;
  a floating-point date is refused by `strptime` in the same way, as `DateNotText`.
- Command-line handling with click, logging configuration and the log messages. The fields each
  loop logs (id, status, date, age) are those of `Resolver.Resolution`. Only `ElnCheck.Run.log`
  keeps all of them; the result of compose-check.py keeps only the three slots.
- `datetime.now()`. `today` is a parameter, and the report's `now` timestamp is not modelled.
- Loading the previous report (`--input`). It is loaded and logged but never used.
- The YAML dump and the Jinja2 HTML page.
- The `url` of `eln-check.py`'s `cli`. It only feeds the downloads, which the server input
  replaces.
- Lister.GetComposeIds: requires that `name` and `version` hold no regular-expression
  metacharacters. The scripts paste them into the pattern unescaped, so with such characters the
  pattern means something other than the literal prefix.
- Ascii.Lower: lower-cases ASCII letters only, where `str.lower` also lower-cases other letters.
  `\d` in the date patterns is likewise taken as the ASCII digits only.
- Calendar.DaysBetween: takes any two dates with a month in 1..12, but is only applied to dates
  that `strptime` accepted (years 1 to 9999). The `OverflowError` of dates outside `datetime`'s
  range therefore does not arise.
