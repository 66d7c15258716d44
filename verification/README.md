# Russian IT-event finder: search, extraction and bot helpers

This project models the core of a Telegram bot that helps a company find IT events in Russia and
sign its employees up for them.

The backend searches DuckDuckGo's HTML endpoint for a query. It caches the result links for 30
minutes under a salted SHA-256 key of the normalised query. It unwraps DuckDuckGo's redirect links,
drops links to search engines and social networks, and keeps at most ten distinct links on allowed
domains. For each link it fetches the page, checks that its title looks like real text, collapses
and truncates the page content, and asks a language model for a JSON record of the event. It
recovers a JSON object from a noisy answer, copies the record's fields, and parses and
re-serialises the start and end dates (four date patterns, a table of Russian month stems, then
ISO 8601). Finally it drops events without a valid name or dated in the past. The bot side decides
whether a position is a managing one, validates e-mail addresses, formats event lists, calendars
and archive-search results as Telegram HTML, stores a user's calendar as a `; `-separated list,
and splits long messages into 4096-character chunks.

Modules, one per file:

- `Wrappers`: `Option`.
- `Text`: the Python `str` operations used (`isspace`, `lower`, `strip`, `split`, `join`, `in`,
  `str(n)`, `int(s)`) and the whitespace collapse of `re.sub(r'\s+', ' ', ...)`.
- `Regex`: the fragment of Python's backtracking `re` engine that the core's patterns need, with
  soundness, completeness and greedy-match lemmas.
- `Utf8`: the decoder `bytes.decode('utf-8', errors='replace')` and the encoder it inverts.
- `Urls`: `urllib.parse.unquote`, the netloc of `urlsplit`, `_clean_url` and `_is_ru_domain`.
- `Search`: the cache key, the time-limited cache and `DuckDuckGoSearch.search`.
- `Titles`: `_is_valid_title`.
- `Extract`: `_extract_relevant_content` after the page text is taken, and `_parse_llm_response`.
- `Dates`: `_parse_date_string` and `strftime("%d.%m.%Y")`.
- `Pipeline`: `EventParser.parse`, `parse_events` and `GET_EVENTS`.
- `Bot`: the helpers of `main.py`.

Effects are parameters of the functions that need them:

- the HTTP exchanges (the search response, the fetched page);
- the language model call;
- `json.loads`, `hashlib.sha256(...).hexdigest()` and `datetime.fromisoformat`;
- the clock (in integer microseconds) and the current year.

## Model

| member | source | states |
|---|---|---|
| Search.NormalizeIdempotent | backend/parser.py:34 | normalising a normalised query changes nothing |
| Search.CacheKeyCanonical | backend/parser.py:32-35 | for every hash function, the key of a query is the key of its normal form: two queries differing only in case, surrounding or repeated whitespace share a cache entry |
| Search.CacheKeyExample | backend/parser.py:32-35 | `" Foo  Bar "` and `"foo bar"` have the same key |
| Search.FreshMisses | backend/parser.py:70 | a new searcher never answers from the cache, whatever the key and time |
| Search.StoredThenServed | backend/parser.py:68-106 | the links a live search stores are served back unchanged, without a request, to every query with the same normal form until `ttl` seconds have passed since they were stored |
| Search.ExpiredSearchesLive | backend/parser.py:68-106 | from `ttl` seconds after a live search stored its links, a query with the same normal form searches live again: it returns and stores the new links, or returns nothing and keeps the old entry when the request fails |
| Search.Candidates | backend/parser.py:86-94 | every candidate passes the domain test and is the cleaned form of one of the links |
| Search.CollectIsDedup | backend/parser.py:86-102 | the loop with its `seen` set computes the first-occurrence de-duplication of the candidate links |
| Search.DedupOntoMembers | backend/parser.py:91-94 | de-duplication loses no element and adds none |
| Search.DedupOntoDistinct | backend/parser.py:91-94 | de-duplication onto distinct elements gives distinct elements |
| Search.DedupOntoOrder | backend/parser.py:91-94 | the added elements appear in the order of their first occurrence |
| Search.LiveOrder | backend/parser.py:81-102 | the listed links are distinct, are exactly the candidate links, and appear in the order in which each candidate first appears |
| Search.Take10 | backend/parser.py:104-106 | `urls[:10]`: a prefix of the list, of length ten when the list has at least ten links and the whole list otherwise |
| Search.LiveResultsSpec | backend/parser.py:81-106 | a live search returns at most ten distinct links; each is acceptable, on an allowed domain, and the cleaned form of a result anchor or of a raw link of the page |
| Text.CollapseIsCollapsed | backend/parser.py:34 | after the whitespace collapse no whitespace run is left and every whitespace character is a space |
| Text.CollapseKeepsText | backend/parser.py:178 | the whitespace collapse keeps every non-whitespace character, in order |
| Text.CollapseCollapsed | backend/parser.py:178 | the collapse leaves a collapsed text as it is |
| Text.SplitJoin | backend/main.py:238-241 | splitting on a separator gives one more piece than there are separators, no piece holds the separator, and joining the pieces with it restores the text |
| Text.DecimalRoundTrip | backend/parser.py:211-213 | `int(str(n)) == n` for every natural number |
| Regex.MatchComplete | backend/parser.py:203 | if the pattern can match from a position, the backtracking engine finds a match there |
| Regex.SearchComplete | backend/parser.py:203 | `re.search` finds a match whenever one exists, starting no later than any possible match |
| Regex.SearchFromFound | backend/parser.py:203 | the match a search reports is the engine's match at its start position |
| Regex.GreedyMatch | backend/parser.py:121-124 | when each quantifier's longest run ends where the next piece begins, the engine's match takes exactly those runs |
| Regex.SingleAtom | backend/parser.py:162-164 | a one-class pattern is found exactly when a long enough run of the class occurs |
| Utf8.DecodeEncode | backend/parser.py:51 | UTF-8 decoding inverts UTF-8 encoding for every string |
| Utf8.DecodeAscii | backend/parser.py:51 | bytes below 0x80 decode to the same characters, one to one |
| Urls.UnquotePercentEncode | backend/parser.py:51 | `unquote` inverts percent-encoding of the UTF-8 bytes of every string |
| Urls.UnquoteRunsPlain | backend/parser.py:51 | text without `%` decodes to itself |
| Urls.UddgSearch | backend/parser.py:49 | `uddg=([^&]+)` matches at the first `uddg=`, and its group is the text after it up to the next `&` or the end |
| Urls.NetlocOfWebUrl | backend/parser.py:57-58 | the netloc of an `http`/`https` URL is the text after `//` up to the first `/`, `?` or `#`; `urlsplit` raises when only one IPv6 bracket is present |
| Urls.CleanUrl | backend/parser.py:46-66 | a kept link is stripped, has an `http`/`https` scheme and a non-empty host naming none of the refused sites |
| Urls.CleanUrlUnwraps | backend/parser.py:48-53 | a DuckDuckGo redirect to the percent-encoded form of an acceptable URL, followed by more parameters or not, cleans to that URL |
| Urls.CleanUrlIdempotent | backend/parser.py:46-64 | a cleaned link without the redirect marker cleans to itself |
| Urls.WebHost | backend/parser.py:57-62 | `https://h/...` with any non-empty host `h` that is free of `/?#[]`, tabs and line breaks and names no refused site is acceptable, with host `h` |
| Urls.AllowedBySuffix | backend/parser.py:37-44 | for a host without `..`, the domain test holds exactly when the host ends with one of the eight allowed suffixes |
| Urls.CleanUrlNotIdempotent | backend/parser.py:48-51 | as written: a redirect to `https://a.ru/duckduckgo.com/l/?uddg=https://b.ru/` cleans to that link, and cleaning it again gives `https://b.ru/` |
| Urls.CleanRedirectAgrees | backend/parser.py:46-66 | corrected cleaner: it agrees with the code on redirect links and on links without the marker |
| Urls.CleanRedirectIdempotent | backend/parser.py:46-66 | corrected cleaner: cleaning a cleaned link gives it back, for every link |
| Urls.NestedKeptByRedirectCleaner | backend/parser.py:48-51 | corrected cleaner: the link of the example above is kept as it is |
| Titles.ValidTitleSpec | backend/parser.py:158-166 | a title is valid exactly when it has at least five characters, a Cyrillic or Latin letter, and no run of three mojibake characters |
| Titles.LetterSearch | backend/parser.py:162-163 | the two letter searches succeed exactly when the title holds such a letter |
| Titles.MojibakeSearch | backend/parser.py:164 | `[ÐÑÐ]{3,}` is found exactly when three consecutive characters are `Ð` or `Ñ` |
| Extract.RelevantContent | backend/parser.py:178-179 | the content is collapsed and at most `maxLength + 3` characters long |
| Extract.RelevantContentKeepsText | backend/parser.py:178-179 | a text that fits keeps all its non-whitespace characters; a longer one becomes its first `maxLength` collapsed characters plus `...` |
| Extract.RelevantContentIdempotent | backend/parser.py:178-179 | extracting from extracted content changes nothing |
| Extract.ParseLlmResponseSpec | backend/parser.py:181-193 | an answer that decodes is used as it is; otherwise the span from the first `{` to the last `}` is decoded; with no such span, or a span that does not decode, the result is the empty object |
| Extract.BracedSpan | backend/parser.py:185 | `\{.*\}` under `re.DOTALL` matches from the first `{` to the last `}` |
| Dates.ParseDate | backend/parser.py:195-232 | an empty string is not a date (the partner lemmas below state the patterns) |
| Dates.FormatRoundTrip | backend/parser.py:208-214 | a date written `DD.MM.YYYY` parses back to that date at midnight, which writes to the same text |
| Dates.YearFirstParses | backend/parser.py:209-214 | an ISO date `YYYY-MM-DD` is read year first |
| Dates.InvalidDateFallsBack | backend/parser.py:208-227 | a day-first text that is not a calendar date is left to `fromisoformat` |
| Dates.DayMonthYearNeverParses | backend/parser.py:211-213 | the third pattern never yields a date, because `int()` of its month word raises |
| Dates.DayMonthUsesCurrentYear | backend/parser.py:216-222 | a day followed by a Russian word takes the current year, and the month of the first table key inside the lower-cased word |
| Dates.MonthFromNone | backend/parser.py:220-222 | the month lookup fails exactly when no key occurs in the word |
| Dates.MonthFromFirst | backend/parser.py:220-222 | the lookup returns the month of the first key, in table order, that occurs in the word |
| Dates.MonthOfMar | backend/parser.py:126-139 | `марта`, `март`, `марте` and every other word starting `мар` without `я` or `ф` are March |
| Dates.DayOfMarch | backend/parser.py:216-222 | `"5 марта"` is 5 March of the current year |
| Dates.NoSeparatorNoNumeric | backend/parser.py:121-122 | a text without `.`, `/` or `-` matches neither numeric pattern |
| Dates.NoSpaceNoDayMonth | backend/parser.py:124 | a text without whitespace does not match the day-and-month pattern |
| Dates.YearFirstNotDayFirst | backend/parser.py:121-122 | `YYYY-MM-DD` is not matched by the day-first pattern |
| Dates.DayFirstNotYearFirst | backend/parser.py:121-122 | `DD.MM.YYYY` is not matched by the year-first pattern |
| Pipeline.Blank | backend/parser.py:236-239 | the initial record has every field, all empty except the source address, and no parsed date |
| Pipeline.StopSpec | backend/parser.py:305-307 | the copy loop reads every field before the first one whose value raises, and stops there |
| Pipeline.ReadDates | backend/parser.py:309-318 | a non-empty start date that parses becomes the parsed date, written `DD.MM.YYYY`; a non-empty end date that parses is rewritten likewise; other fields are untouched |
| Pipeline.ReadDatesKeeps | backend/parser.py:309-318 | the date steps keep every field, the source address and the absence of surrounding whitespace |
| Pipeline.ReadAnswer | backend/parser.py:286-318 | a record read from an answer has every field, its source address, stripped fields and a start date matching the parsed date |
| Pipeline.ReadAnswerField | backend/parser.py:305-307 | each non-date field holds the stripped answer text when the loop reached it, and stays empty otherwise |
| Pipeline.ReadAnswerDate | backend/parser.py:305-312 | the start date is parsed exactly when every field was read and the start date is not empty |
| Pipeline.AllRead | backend/parser.py:305-307 | when the loop runs to the end, every field holds its stripped answer text |
| Pipeline.Parse | backend/parser.py:234-323 | every record carries its source address (shape in the next rows) |
| Pipeline.ParseShape | backend/parser.py:234-323 | every record has every field; an unfetchable page or an invalid title gives the blank record; a parsed start date is shown re-serialised; no field has surrounding whitespace |
| Pipeline.ParseWithoutObject | backend/parser.py:286-323 | a failed model call or an answer that is not a JSON object leaves the blank record |
| Pipeline.Outcomes | backend/parser.py:342-345 | one record per link, each carrying its link |
| Pipeline.KeptSpec | backend/parser.py:342-359 | a record is kept exactly when it is one of the parsed records and passes the filter |
| Pipeline.KeepByDate | backend/parser.py:347-357 | a validly named record is kept without a date or with a later naive date; an aware date drops it (the comparison raises) |
| Pipeline.KeepEvents | backend/parser.py:342-366 | the filter loop returns the kept records, in order |
| Pipeline.SearchUrlsBound | backend/parser.py:329-330 | a new searcher yields at most ten links |
| Pipeline.ParseEvents | backend/parser.py:325-369 | the events are the kept records of the links a new searcher finds, at most ten |
| Pipeline.EventsFromSearch | backend/parser.py:325-369 | the searched links are distinct, and every returned event passed the filter and comes from one of them, on an allowed domain |
| Pipeline.RewriteQuerySpec | backend/parser.py:371-375 | the query is widened exactly when it holds fewer than two spaces, and kept otherwise |
| Pipeline.RewriteQueryIdempotent | backend/parser.py:371-375 | a widened query is not widened again |
| Pipeline.GetEvents | backend/parser.py:371-378 | the events are those of `parse_events` on the widened query, at most ten |
| Pipeline.SameDayRejected | backend/parser.py:353-357 | as written: an event dated today, read from a date without a time, is dropped as past once midnight has gone by |
| Pipeline.KeepFromTodayExtends | backend/parser.py:347-359 | corrected filter: it keeps everything the code keeps, and differs exactly on events dated today at an earlier time of day |
| Pipeline.SameDayKeptFromToday | backend/parser.py:347-359 | corrected filter: a validly named event dated today without a time zone is kept |
| Bot.AnyOccurs | backend/main.py:76 | `any(...)` holds exactly when some listed title occurs |
| Bot.ManagingSpec | backend/main.py:74-76 | a position is managing exactly when a listed title occurs in its stripped, lower-cased form; its case does not matter |
| Bot.CoordinatorIsManaging | backend/main.py:20-25 | as written: `coordinator` counts as a managing position, since it contains `coo` |
| Bot.AnyWordOccurs | backend/main.py:76 | corrected test: holds exactly when some listed title occurs as a whole word |
| Bot.ManagingTitleIsManaging | backend/main.py:74-76 | corrected test: it only ever says no where the code says yes |
| Bot.SingleWordTitle | backend/main.py:20-25 | corrected test: a one-word lower-case position is managing exactly when it is a listed title |
| Bot.CoordinatorNotManagingTitle | backend/main.py:20-25 | corrected test: `coordinator` is not managing |
| Bot.EmailSpec | backend/main.py:78-80 | an address is accepted exactly when it, or it less one final newline, is local part `@` domain `.` rest over the allowed characters |
| Bot.EmailSound | backend/main.py:78-80 | every accepted address has that shape |
| Bot.EmailComplete | backend/main.py:78-80 | every address of that shape is accepted |
| Bot.Chunks | backend/main.py:358-363 | the chunks concatenate to the text; each holds at most 4096 characters and all but the last exactly 4096; a text that fits is sent whole |
| Bot.CleanPieces | backend/main.py:238 | the kept pieces are non-empty, stripped, and free of `;` when the pieces are |
| Bot.CalendarEntries | backend/main.py:238 | every calendar entry is non-empty, stripped and free of `;` |
| Bot.UpdateCalendar | backend/main.py:228-249 | the calendar is written exactly when the user exists and the name is not yet among its entries; for a non-empty, stripped name without `;`, the written calendar reads back as the old entries followed by the name |
| Bot.EntriesOfText | backend/main.py:238-241 | writing entries with `; ` and reading them back gives the same entries |
| Bot.UpdateAppends | backend/main.py:236-241 | adding a new, clean name appends it as the last entry |
| Bot.UpdateTwice | backend/main.py:236-249 | adding the same clean name twice writes once; the second call returns `False` |
| Bot.RegisterEvent | backend/main.py:448-458 | the typed name reaches the update exactly when it has at least five characters once stripped |
| Bot.RegisterTwice | backend/main.py:448-458 | registering the same name twice writes once, for a name without `;` |
| Bot.NameWithSeparator | backend/main.py:238-241 | as written: a name holding `; ` is stored as two entries, never found, and added again on every call |
| Bot.WithoutSeparator | backend/main.py:238-241 | corrected update: the name has every `;` replaced by `,`, position by position, and holds no `;` |
| Bot.OneEntryTwice | backend/main.py:236-249 | corrected update: adding any name twice writes once |
| Bot.OneEntryAgrees | backend/main.py:228-249 | corrected update: on the names the code already handles, it does what the code does |
| Bot.FormatCalendarSpec | backend/main.py:107-119 | the empty-calendar text is shown exactly when no entry is listed; otherwise the header and one numbered line per entry |
| Bot.CalendarListsEntries | backend/main.py:115-117 | every entry appears on its numbered line |
| Bot.DescriptionText | backend/main.py:96 | the placeholder is shown exactly for a missing or empty description; otherwise its first 150 characters and `...` |
| Bot.EventBlockShows | backend/main.py:89-100 | an event's block shows its name and its description line |
| Bot.FirstShown | backend/main.py:87 | at most five events are shown, the first ones, all of them when there are at most five |
| Bot.EventBlocks | backend/main.py:87-101 | one block per shown event, numbered from 1 |
| Bot.EventsMessageSpec | backend/main.py:86-105 | the message opens with the header, ends with the archive-search hint when numbered, and holds every block |
| Bot.FormatEventsSpec | backend/main.py:82-105 | the apology is shown exactly when there are no events; otherwise the header opens the text and, when numbered, the archive-search hint closes it |
| Bot.FormatEventsShows | backend/main.py:87-101 | each of the first five events appears under its position |
| Bot.FormatEventsFirstFive | backend/main.py:87 | events after the fifth change nothing |
| Bot.ShownItems | backend/main.py:128 | an item is shown exactly when its value is neither empty nor `N/A` |
| Bot.RagEntrySpec | backend/main.py:126-132 | a dictionary result adds text exactly when one of its values is shown |
| Bot.FormatRagSpec | backend/main.py:121-133 | the not-found text is shown exactly when there are no results; results after the fifth change nothing |

## Left out

- Regex.InClass: `\d` is ASCII `0`-`9` only, while Python's `\d` on a `str` matches every Unicode
  decimal digit (Arabic-Indic, fullwidth and others). Dates written with such digits are not modelled.
- Text.DecimalValue: `int()` is modelled on ASCII digits only; Python also accepts other Unicode
  decimal digits, surrounding whitespace, a sign and underscores. The groups the date patterns
  capture hold digits only, so those extras never reach `int()`.
- Dates.ParseDate: inherits the two limits above, so a date in non-ASCII digits is not read by
  the patterns. It also assumes `strftime("%Y")` does not zero-pad years below 1000, as with glibc.
  Of `fromisoformat` only the answer is modelled (a parameter).
- Text.LowerChar: lower-cases ASCII, Latin-1 and basic Cyrillic (`А`-`Я`, `Ѐ`-`Џ`) letters only.
  Python's `str.lower()` covers all of Unicode, including multi-character results such as `İ`.
  Search.NormalizeQuery, Bot.IsManagingPosition and Urls.IsRuDomain inherit this.
- Search.CacheKey: two queries that differ only in the case of letters outside those ranges get
  different keys here but the same key in the code, because of the Text.LowerChar limit. The hash
  is a parameter, so no property of SHA-256 is used.
- Urls.Netloc: models `urlsplit`'s `ValueError` for unbalanced IPv6 brackets only. It leaves out
  `_checknetloc` (the NFKC normalisation check on non-ASCII netlocs) and `_check_bracketed_netloc`
  (validation of the bracketed address), so a URL they reject is treated as accepted.
- Urls.CleanUrl: inherits the Urls.Netloc limit. A link whose host fails those two checks makes
  `urlsplit` raise, so the code returns `None`, while the model keeps the link when it is otherwise
  acceptable.
- Extract.ParseLlmResponse: `decode` returns `None` for every exception of `json.loads`. The code
  catches only `JSONDecodeError` on the first call, so a `RecursionError` or an integer-digit-limit
  `ValueError` escapes to `parse`'s `except`, which leaves the record as it was at that point
  (blank apart from the address). The model treats those answers as undecodable instead.
- Pipeline.Parse: the language model is a deterministic function of the prompt. The page fetch and
  parse (`get_soup`, BeautifulSoup, `_get_meta`, `soup.title`, and the tag removal and `get_text`
  of `_extract_relevant_content`) are reduced to the title, the description and the page text. The prompt is modelled by the four values its text is built from (title, description,
  content and year), not by the text itself.
- Pipeline.Parse: the record's `Parsed Date` entry is an `Option` beside the string fields, not a
  dict value that is `''` or a `datetime`.
- Pipeline.ParseEvents: one `currentYear` serves every link, while the code reads
  `datetime.now().year` afresh in each `parse` call, separately from `today`. A run that crosses
  midnight on 31 December gives the later links' day-and-month dates, and the year in their
  prompts, the new year in the code but the old year here.
- Pipeline.GetEvents: inherits the single `currentYear` of Pipeline.ParseEvents.
- Search.Search: the request, HTML parsing (`find_all('a', class_='result__a')`), logging and the
  15-second request timeout are parameters or dropped. The cache is a map: `cache_size` is never
  consulted by the code, so nothing is evicted.
- Bot.FormatRag: a result that is neither a dictionary nor text is rendered by `str()`; the model
  takes its rendering as given text. Dictionary values are taken as strings.
- Bot.UpdateCalendar: the SQLite reads and writes, `commit` and the `user_id` lookup are reduced to
  the stored calendar row as an `Option`.
- Logging, `time.sleep(1)`, the Telegram handlers and keyboards, the database schema, `RAG.py`
  and `config.py` are not part of this model.

## Findings

| source | as written | input that shows it | evidently intended | confidence | as-written member | corrected member |
|---|---|---|---|---|---|---|
| backend/parser.py:353-357 | `parsed_date < today` compares a midnight date with the current time | an event dated today, filtered at any time after midnight | events happening today are still listed | not executed | Pipeline.SameDayRejected | Pipeline.KeepFromToday (Pipeline.KeepFromTodayExtends, Pipeline.SameDayKeptFromToday) |
| backend/parser.py:48-51 | the `uddg` unwrap applies to any link containing the marker, anywhere | `https://a.ru/duckduckgo.com/l/?uddg=https://b.ru/` cleans to `https://b.ru/` | only DuckDuckGo's own redirect links are unwrapped, so cleaning is idempotent | not executed | Urls.CleanUrlNotIdempotent | Urls.CleanRedirectUrl (Urls.CleanRedirectIdempotent, Urls.CleanRedirectAgrees, Urls.NestedKeptByRedirectCleaner) |
| backend/main.py:238-241 | the event name is appended unchanged to a `;`-separated list | the name `Day 1; Day 2`, registered twice | one calendar entry per registration, and a repeat is refused | not executed | Bot.NameWithSeparator | Bot.UpdateCalendarOneEntry (Bot.OneEntryTwice, Bot.OneEntryAgrees) |
| backend/main.py:74-76 | each title is tested as a substring of the position | `coordinator` contains `coo` | a title counts only as a whole word | not executed | Bot.CoordinatorIsManaging | Bot.IsManagingTitle (Bot.SingleWordTitle, Bot.CoordinatorNotManagingTitle, Bot.ManagingTitleIsManaging) |

Every member above models the code as written. The corrected definitions stand beside them,
each with its intended property proved.
