# ReviewExplorer core, modelled in Dafny

ReviewExplorer lets a user find a Moscow school, have the reviews of it
scraped, classified and aggregated, and explore the result in the browser as
counters, bar charts and a drill-down list of review texts. This project
models the four pieces of logic at the heart of that pipeline and proves
properties of them:

- **The scraper's text rules** (`parsers/scraper_engine.py`, module
  `Scraper`, with percent-decoding in `Percent`). These cover how the search
  query is built from a school name, how redirect links are unwrapped, and
  which link is chosen. They also cover the comment loop: it accepts,
  classifies and de-duplicates review blocks.
- **The school loader** (`backend/cmd/loader.go`, module `Loader`). It
  filters the CSV rows, projects the columns, scans the `[`…`]` coordinate
  text one octet at a time, and counts the inserts that succeed.
- **The review aggregation** (`backend/analytics/engine.go`, module
  `Engine`). It covers keyword theming and the per-sentiment theme buckets,
  then the average review length, the per-year satisfaction series and the
  four results it returns.
- **The analysis page** (`frontend/app.js`, modules `Json`, `Normalizer` and
  `Client`):
  - the debounced school search and the suggestion list;
  - the `startAnalysis` session: busy, then failed or ready, then
    re-enabled;
  - the normalisation of each analytics entry into a chart (`getCount`,
    `getExamples`, labels, values, orientation);
  - the drill-down from a clicked bar to its reviews.

  The page's mutable state (input text, debounce timer, suggestion list,
  status, button, chart list, side panel) is the class `Client.Page`. Its
  methods are the page's event handlers. The JSON values it receives are the
  datatype `Json.Js`.

Module `Bridge` connects the backend to the page. It encodes the four
results as JSON the way the backend's response handler does
(`backend/handlers/schools.go:155-167`). Go's `encoding/json` writes map
keys in ascending order, and the module follows it in that. It then proves
what the page draws from that JSON. `Text` holds the string operations the
three languages share, each with the whitespace predicate of its own
language. `Wrappers` holds the `Option` type.

### Behaviour worth knowing

- **A bare number as a payload value counts 0.** `getCount` counts arrays
  and `{count}` records only. `Normalizer.GetCountCases` states this, and
  `Bridge.DepthBarsAreZero` draws the consequence: every bar of the
  average-length chart has height 0.
- **No stale-response guard.** `startAnalysis` has no session token, so a
  reply that settles late overwrites the status and title of a later one.
  Its charts land on canvases whose charts were never destroyed, and
  Chart.js then throws (`Client.LateReplyWins`, `Client.LateReplyCollides`).
- **The satisfaction series is drawn as index bars.** The backend tags its
  results `"bar"` and `"line"`, and the page only recognises `"stackedBar"`.
  So the series, an array of `{label, value}` objects, reaches the
  key → value bar renderer. There it becomes bars labelled "0", "1", … of
  height 0 (`Bridge.SeriesAsIndexMap`).
- **Name cleaning is one left-to-right pass per phrase.** A phrase that
  only appears once the other copy is cut out of the middle stays in the
  cleaned name (`Scraper.CleanNameCanLeavePhrase`).

## Model

| member | source | states |
|---|---|---|
| Text.FindFrom | backend/analytics/engine.go:37 | the first occurrence at or after `from`, or none when the substring occurs nowhere after it |
| Text.ContainsIffFound | parsers/scraper_engine.py:15 | the substring test holds exactly when a search from the start finds an occurrence |
| Text.LessTransitive | backend/analytics/engine.go:93 | the string order `sort.Strings` uses is transitive |
| Text.LessTotal | backend/analytics/engine.go:93 | any two different strings are ordered one way or the other |
| Text.LessAsymmetric | backend/analytics/engine.go:93 | no two strings precede each other |
| Text.NatText | backend/analytics/engine.go:70 | the decimal numeral of a number is a non-empty run of digits without a leading zero |
| Text.NatTextValue | backend/analytics/engine.go:70 | the numeral `%d` prints reads back as the number |
| Text.NatTextInjective | backend/analytics/engine.go:70 | different years give different keys |
| Text.TrimIsSlice | frontend/app.js:75 | the trimmed text is the part of the input between a leading and a trailing run of white space, and starts and ends with a non-space |
| Text.Trim | frontend/app.js:75 | the trimmed text is no longer than the input and neither starts nor ends with white space |
| Text.TrimLeadingSpace | parsers/scraper_engine.py:74 | a leading space makes no difference to the stripped text |
| Text.TrimIdempotent | parsers/scraper_engine.py:74 | stripping twice is stripping once |
| Text.TrimNoop | parsers/scraper_engine.py:116 | a text with no white space at either end is left as it is |
| Text.SplitJoin | frontend/app.js:211 | the pieces of `split(' ')`, joined with spaces, give back the label |
| Text.Split | frontend/app.js:211 | `split(' ')` gives at least one piece, and no piece holds the separator |
| Text.ReplaceDeletes | parsers/scraper_engine.py:70-73 | deleting a phrase removes whole copies of it: the length drops by a multiple of the phrase's length |
| Text.ReplaceAbsent | parsers/scraper_engine.py:70-73 | a text without the phrase is unchanged by the deletion |
| Text.Replace | parsers/scraper_engine.py:70-73 | replacing by a text no longer than the phrase never lengthens the text |
| Text.ReplaceFirst | parsers/scraper_engine.py:70-73 | with no occurrence the text is unchanged; otherwise the text before the first occurrence is kept, that occurrence becomes the replacement, and the rest after it is treated the same way |
| Text.ReplaceAtFirst | parsers/scraper_engine.py:70-73 | the same split at an occurrence before which the phrase starts nowhere |
| Text.ReplaceKeepsPrefix | parsers/scraper_engine.py:70-73 | a prefix in which no occurrence starts is copied unchanged |
| Text.ReplaceShortens | parsers/scraper_engine.py:70-73 | deleting a phrase that occurs makes the text strictly shorter |
| Text.ReplaceOnce | parsers/scraper_engine.py:70-73 | one occurrence, preceded by text without the phrase's first letter and followed by text without the phrase, is the only thing replaced |
| Text.ContainsAfterForeign | parsers/scraper_engine.py:70-73 | text without the phrase's first letter, put in front of text without the phrase, does not create an occurrence |
| Json.Lookup | frontend/app.js:163-164 | a key absent from an object reads as `undefined` |
| Json.LookupAt | frontend/app.js:209-210 | in an object with distinct keys, the i-th key reads back the i-th value |
| Json.Prop | frontend/app.js:200-204 | a property read throws exactly on `null` and `undefined` |
| Json.IndexKeys | frontend/app.js:209 | the keys of an n-element array are the numerals "0" to "n-1" |
| Json.KeysValuesAligned | frontend/app.js:209-210 | `Object.keys` and `Object.values` have the same length |
| Normalizer.GetCountCases | frontend/app.js:163 | an array counts its length, an object its numeric `count`, and anything else 0, including a bare number |
| Normalizer.GetExamplesCases | frontend/app.js:164 | an array is its own example list, an object gives its array `examples`, and anything else gives none |
| Normalizer.GetCount | frontend/app.js:163 | an array counts its examples, and a value that is neither an array nor an object counts 0 |
| Normalizer.GetExamples | frontend/app.js:164 | an array is its own example list, and a value that is neither an array nor an object has none |
| Normalizer.UnknownShapeIsEmpty | frontend/app.js:163-164 | a value of no recognised shape has count 0 and no examples |
| Normalizer.CountMatchesExamples | frontend/app.js:163-164 | the count equals the number of examples for a list and for a consistent `{count, examples}` record |
| Normalizer.WrapLabelRoundTrip | frontend/app.js:211 | exactly the labels longer than 12 characters are wrapped; the wrapped lines hold no space and join back to the label |
| Normalizer.WrapLabel | frontend/app.js:211 | the label's text is kept, and it is split into lines exactly when it is longer than 12 characters |
| Normalizer.MapProp | frontend/app.js:202-204 | `payload.map(p => p.k)` succeeds exactly when no element is null or undefined, and then holds each element's property in order |
| Normalizer.BarsShape | frontend/app.js:209-213 | a bar chart has one label and one bar per payload key, each bar the count of its value, each label wrapped; it is horizontal exactly for entries 0 and 1; its entry is not of the stacked type |
| Normalizer.ObjectChart | frontend/app.js:209-212 | for an object payload, bar a is the a-th field: its key, its value and that value's count |
| Normalizer.BarsOfObject | frontend/app.js:209-212 | for an object payload with distinct keys, the entry is drawn and bar k carries key k, the value stored under it and its count |
| Normalizer.StackedShape | frontend/app.js:200-205 | a stacked entry draws labels from `label` for the seasonal entry and from `category` otherwise; it draws one pos and one neg value per payload element, and is vertical exactly for the seasonal entry |
| Normalizer.StackedChart | frontend/app.js:200-205 | a drawn stacked chart sits in its entry's slot, its payload is an array, and it has one label, one pos and one neg value per payload element |
| Normalizer.BarChart | frontend/app.js:209-214 | a bar chart sits in its entry's slot, is horizontal exactly for entries 0 and 1, and has as many labels and bars as raw keys and raw values |
| Normalizer.StackedMalformedThrows | frontend/app.js:202-204 | a stacked entry whose payload is not an array, or holds a null element, throws |
| Normalizer.RenderEntryOutcome | frontend/app.js:198-220 | an entry is skipped exactly when its canvas is missing and is drawn in its own slot; it throws only when it is null or of the stacked type |
| Normalizer.RenderEntry | frontend/app.js:198-220 | a drawn entry sits in its own slot, and an entry without a canvas is always skipped |
| Normalizer.ClickBarResolves | frontend/app.js:214-219 | a click resolves to the panel of the first element hit: its label, its count and its examples |
| Normalizer.ClickBar | frontend/app.js:214-219 | a click opens the panel exactly when some element was hit; the panel carries the hit bar's key, count and examples |
| Normalizer.DrillDown | frontend/app.js:214-219 | clicking bar k of an object payload whose value is a review list opens the panel for key k, with the list's length and the list itself in order |
| Normalizer.RenderFromComplete | frontend/app.js:197-221 | when no entry throws, one chart is drawn per entry with a canvas, in entry order, each that entry's chart |
| Normalizer.RenderFromThrows | frontend/app.js:197-221 | the loop throws exactly when some entry with a canvas throws |
| Normalizer.AnalyticsEntries | frontend/app.js:197 | an array of entries is iterated as it is, a falsy value as no entries, and any other value makes the loop throw |
| Normalizer.RenderFrom | frontend/app.js:197-221 | the loop draws at most one chart per entry, each on the canvas of an entry that has one |
| Percent.HexChar | parsers/scraper_engine.py:20 | the hex digit written for a value reads back as that value |
| Percent.PercentBytes | parsers/scraper_engine.py:20 | a run of escapes gives no more octets than it has characters |
| Percent.CodePoint | parsers/scraper_engine.py:20 | a well-formed multi-octet UTF-8 sequence decodes to a scalar value outside the ASCII and surrogate ranges |
| Percent.Step | parsers/scraper_engine.py:20 | each decoding step consumes between one octet and all that remain, and an ASCII octet is its own character |
| Percent.Utf8Decode | parsers/scraper_engine.py:20 | decoding gives no more characters than octets |
| Percent.DecodeRuns | parsers/scraper_engine.py:20 | unescaping gives no more characters than it reads |
| Percent.EscapedBytes | parsers/scraper_engine.py:20 | the octets of a run of `%XX` escapes are the octets that were escaped |
| Percent.DecodeChar | parsers/scraper_engine.py:20 | decoding one character's UTF-8 octets gives that character back |
| Percent.DecodeEncoded | parsers/scraper_engine.py:20 | UTF-8 decoding undoes UTF-8 encoding |
| Percent.UnquoteEncoded | parsers/scraper_engine.py:20 | `unquote` undoes percent-encoding (section 2.1 of RFC 3986) for every string |
| Percent.Unquote | parsers/scraper_engine.py:20 | a text without `%` is unchanged, and no text gets longer |
| Scraper.CleanName | parsers/scraper_engine.py:69-75 | the cleaned name is no longer than the name and has no white space at either end |
| Scraper.QueryShape | parsers/scraper_engine.py:76 | the query is the site filter followed by the cleaned name |
| Scraper.CleanNameKeeps | parsers/scraper_engine.py:69-75 | a name without either phrase and without outer white space is used as it is |
| Scraper.CleanNameStable | parsers/scraper_engine.py:69-75 | cleaning a cleaned name that holds neither phrase changes nothing |
| Scraper.CleanNameShortens | parsers/scraper_engine.py:69-75 | a name holding either phrase gets strictly shorter |
| Scraper.CleanNameStripsPrefix | parsers/scraper_engine.py:69-75 | a registry name made of both phrases and the rest, separated by spaces, is cleaned to the stripped rest |
| Scraper.CleanNameCanLeavePhrase | parsers/scraper_engine.py:69-75 | deleting left to right once can leave a phrase behind: "города М" + "города Москвы" + "осквы" is cleaned to "города Москвы" |
| Scraper.SearchQuery | parsers/scraper_engine.py:76 | the query starts with the site filter and adds no more characters than the name has |
| Scraper.ValueStart | parsers/scraper_engine.py:17 | a match of the parameter pattern has a value that starts after it with a character other than `&` |
| Scraper.ValueEnd | parsers/scraper_engine.py:17 | the value runs up to the next `&` or the end |
| Scraper.FindMatch | parsers/scraper_engine.py:17 | the leftmost position where the pattern matches, and none when it matches nowhere |
| Scraper.ExtractTargetUrl | parsers/scraper_engine.py:12-23 | every result contains the site name; a missing or empty link gives nothing; a link to the site is returned unchanged |
| Scraper.NoSiteInRedirect | parsers/scraper_engine.py:15 | a redirect link made of a prefix without the site name, `?url=` and escapes does not itself contain the site name |
| Scraper.RedirectValue | parsers/scraper_engine.py:17 | in such a link the first match is the `?url=` and its value is the whole escape run |
| Scraper.ExtractEscaped | parsers/scraper_engine.py:17-22 | a redirect whose value decodes to a site address yields that address |
| Scraper.ExtractRedirect | parsers/scraper_engine.py:12-23 | a redirect whose `url` parameter percent-encodes a site address yields exactly that address |
| Scraper.Targets | parsers/scraper_engine.py:85-88 | every collected link contains the site name |
| Scraper.CollectLinks | parsers/scraper_engine.py:84-88 | the link loop keeps every truthy target, in page order |
| Scraper.FirstWith | parsers/scraper_engine.py:90-102 | the first link with the property, and none exactly when no link has it |
| Scraper.ChooseUrl | parsers/scraper_engine.py:90-102 | the first school page; else, when there is none, the first site page that is no search, static or ad link; nothing exactly when neither exists |
| Scraper.FirstDate | parsers/scraper_engine.py:122 | the leftmost `dddd-dd-dd` at or after a position, or none when there is no date |
| Scraper.ReviewDate | parsers/scraper_engine.py:122-135 | the key date is the leftmost date in the block, or 2024-01-01 when the block has none |
| Scraper.StampedDate | parsers/scraper_engine.py:120-122 | a block accepted through a `20dd-dd-dd` stamp takes its date at or before that stamp |
| Scraper.Rating | parsers/scraper_engine.py:123-129 | "positive" exactly when the positive marker occurs; "negative" exactly when only the negative one does; "neutral" exactly when neither does |
| Scraper.SpaceRun | parsers/scraper_engine.py:131 | the maximal run of white space from a position |
| Scraper.DigitRun | parsers/scraper_engine.py:131 | the maximal run of digits from a position |
| Scraper.LastNewline | parsers/scraper_engine.py:131 | the last line feed in a range, or none when it has none |
| Scraper.BodyStart | parsers/scraper_engine.py:131 | when the marker line matches, the body starts after it, just after a line feed |
| Scraper.BodyEnd | parsers/scraper_engine.py:131 | the lazy group ends at the first reply marker or at the end, and has no marker before that |
| Scraper.FindBody | parsers/scraper_engine.py:130-133 | the extracted group lies within the block and holds no reply marker |
| Scraper.BodyWithoutReply | parsers/scraper_engine.py:130-133 | an extracted, stripped review text never contains the reply marker |
| Scraper.Classify | parsers/scraper_engine.py:116-133 | a block is accepted exactly when it passes the length, prefix and tag tests; the review is then built from its date, rating and text |
| Scraper.Accept | parsers/scraper_engine.py:117-121 | an accepted block is longer than 50 characters and does not start with the "all reviews" link text |
| Scraper.ReviewText | parsers/scraper_engine.py:130-133 | the review text is no longer than the block, and is the block itself when the body pattern does not match |
| Scraper.Key | parsers/scraper_engine.py:135 | the key is the review's date and a prefix of its text of at most 50 characters, the whole text when it is that short |
| Scraper.ScrapeReviews | parsers/scraper_engine.py:112-138 | the loop returns the accepted reviews, keeping the first review of each key |
| Scraper.Snoc | parsers/scraper_engine.py:135-138 | one more block extends the candidates; the review is kept exactly when its key is new, and the seen keys gain its key |
| Scraper.KeysOfMember | parsers/scraper_engine.py:136 | a key is seen exactly when some review so far has it |
| Scraper.KeepDistinct | parsers/scraper_engine.py:135-138 | no two returned reviews share a key |
| Scraper.KeepKeys | parsers/scraper_engine.py:135-138 | every key among the candidates is returned |
| Scraper.KeepFirst | parsers/scraper_engine.py:135-138 | each returned review is the first candidate with its key |
| Scraper.KeepOrder | parsers/scraper_engine.py:135-138 | the returned reviews keep the candidates' order |
| Scraper.Keep | parsers/scraper_engine.py:135-138 | no more reviews are kept than there are candidates, and at least one when there is any |
| Engine.LowerChar | backend/analytics/engine.go:34 | the result is never a capital letter, and a non-capital is kept |
| Engine.Lower | backend/analytics/engine.go:34 | the result has the input's length and no capital letter; a text without capitals is left as it is; each character is lower-cased on its own |
| Engine.LowerIdempotent | backend/analytics/engine.go:34 | lower-casing twice is lower-casing once |
| Engine.GetTheme | backend/analytics/engine.go:33-43 | the theme is a group with a keyword occurring in the lower-cased text, or the default theme when no keyword occurs |
| Engine.DefaultMeansNoMatch | backend/analytics/engine.go:33-43 | the default theme is returned exactly when no keyword of any group occurs, unless the default theme is itself a group |
| Engine.IsThemeFor | backend/analytics/engine.go:33-43 | a theme GetTheme may return is a keyword group or the default theme |
| Engine.RunLength | backend/analytics/engine.go:55 | the leading run of non-space characters is maximal |
| Engine.Fields | backend/analytics/engine.go:55 | the fields are non-empty and hold no white space, and there are none exactly when the text is all white space |
| Engine.FieldsCoverText | backend/analytics/engine.go:55 | the fields, put together, are the text without its white space |
| Engine.WordCount | backend/analytics/engine.go:55 | a text has no words exactly when it is all white space |
| Engine.YearKey | backend/analytics/engine.go:69-70 | the year key is a non-empty run of digits |
| Engine.InsertSorted | backend/analytics/engine.go:93 | placing a string after the elements it does not precede keeps the list sorted |
| Engine.Insert | backend/analytics/engine.go:93 | insertion keeps a sorted list sorted and adds exactly the new string |
| Engine.SortStrings | backend/analytics/engine.go:93 | the result is sorted and a permutation of the input |
| Engine.SortedDistinct | backend/analytics/engine.go:89-93 | sorting keys with no repeats gives a strictly ascending list |
| Engine.BucketTotal | backend/analytics/engine.go:54-66 | the theme lists of a sentiment hold as many texts as there are reviews of that sentiment |
| Engine.BucketIsMatching | backend/analytics/engine.go:56-66 | theme t's list is the texts of the reviews of that sentiment themed t, in review order; t is present exactly when that list is non-empty |
| Engine.MatchingSource | backend/analytics/engine.go:61-65 | every stored text comes from a review with that sentiment and that theme |
| Engine.StoredTextsThemed | backend/analytics/engine.go:56-65 | every text stored under theme t is one GetTheme may theme t, and comes from a review of that sentiment |
| Engine.TallyKeys | backend/analytics/engine.go:68-73 | a review adds its own year to the tallies and no other |
| Engine.DynKeys | backend/analytics/engine.go:68-79 | a year appears exactly when a dated review of any sentiment falls in it |
| Engine.DynCounts | backend/analytics/engine.go:74-78 | a year's tallies are the numbers of its positive and of its negative reviews |
| Engine.YearCountAbsent | backend/analytics/engine.go:68-79 | a year with no dated review counts no reviews |
| Engine.PctBounds | backend/analytics/engine.go:101-105 | a satisfaction value lies between 0 and 100 |
| Engine.SeriesInRange | backend/analytics/engine.go:99-107 | every point of the series lies between 0 and 100 |
| Engine.WordSumWithoutReviews | backend/analytics/engine.go:82-87 | a sentiment without reviews sums no words |
| Engine.DepthKeys | backend/analytics/engine.go:48 | the depth map holds exactly the two classes |
| Engine.AverageMeaning | backend/analytics/engine.go:82-87 | the stored average times the count gives the word sum, and a zero count leaves the sum alone |
| Engine.DepthLookup | backend/analytics/engine.go:82-87 | each class's value is its average word count |
| Engine.DepthEmptyClass | backend/analytics/engine.go:48-87 | a class without reviews keeps the value 0 |
| Engine.Snoc | backend/analytics/engine.go:58-66 | one more review extends its sentiment's theme list, counter and word sum, and leaves the other sentiment's unchanged |
| Engine.DynSnoc | backend/analytics/engine.go:68-79 | the tallies of one more review are the tallies so far updated by that review |
| Engine.TallyYear | backend/analytics/engine.go:68-79 | a dated review creates its year's entry if needed and bumps only its own sentiment's tally |
| Engine.Aggregate | backend/analytics/engine.go:46-80 | the loop leaves the theme buckets, word sums and counters of both sentiments and the per-year tallies, each equal to its definition over the whole list, with every review themed as GetTheme may |
| Engine.YearKeys | backend/analytics/engine.go:89-93 | the year keys, strictly ascending, are exactly the years of the tallies |
| Engine.DynamicsSeries | backend/analytics/engine.go:95-107 | one point per year, in ascending year order, valued by its percentage of positive reviews |
| Engine.ReportTypes | backend/analytics/engine.go:109-114 | there are exactly four results, with their fixed names in fixed order; three are "bar" and the last is "line" |
| Engine.Analyze | backend/analytics/engine.go:45-115 | the four results carry the theme buckets, the average lengths and the satisfaction series of the reviews |
| Loader.FirstIndex | backend/cmd/loader.go:49-57 | the first position of an octet, or the length when it is absent |
| Loader.RunesWithoutOpen | backend/cmd/loader.go:58-60 | the collected runes hold no `[`, each comes from one octet, and a `]` appears only when the octets had one |
| Loader.CoordText | backend/cmd/loader.go:46-61 | the coordinate text is no longer than the geodata and holds neither bracket |
| Loader.RunesWithoutOpenSnoc | backend/cmd/loader.go:58-60 | one more octet appends its rune unless it is `[` |
| Loader.ScanOpen | backend/cmd/loader.go:50-52 | reading `[` switches collecting on and appends nothing |
| Loader.ScanOther | backend/cmd/loader.go:58-60 | any other octet is appended exactly while collecting |
| Loader.ScanCoords | backend/cmd/loader.go:46-61 | the scanner collects exactly the runes after the first `[` and before the first `]`, with `[` dropped |
| Loader.FirstIndexIs | backend/cmd/loader.go:54-57 | the first position is the only one with the defining properties |
| Loader.FirstIndexSnoc | backend/cmd/loader.go:54-57 | one more octet moves the first position only when the octet was absent |
| Loader.ScanResult | backend/cmd/loader.go:49-61 | wherever the loop stops, at the first `]` or the end, the text it holds is the coordinate text |
| Loader.StopsAtClose | backend/cmd/loader.go:54-57 | nothing after the first `]` changes the coordinate text |
| Loader.CloseFirstGivesNothing | backend/cmd/loader.go:54-57 | a `]` before any `[` gives the empty text |
| Loader.Coordinates | backend/cmd/loader.go:43-65 | an empty coordinate text leaves both coordinates 0; otherwise the first number scanned is the longitude and the second the latitude (section 3.1.1 of RFC 7946), and a number not scanned stays 0 |
| Loader.RowInsert | backend/cmd/loader.go:42-67 | the insert takes columns 0, 3, 4, 9, 12 and 16 in that order; its coordinates are 0 when column 25 has no coordinate text, and otherwise the second and first numbers scanned from it as latitude and longitude |
| Loader.Attempts | backend/cmd/loader.go:35-38 | every insert comes from a data row other than the header, with at least 26 fields |
| Loader.Successes | backend/cmd/loader.go:67-70 | the success count is at most the number of inserts |
| Loader.AttemptsAreRows | backend/cmd/loader.go:35-67 | each insert is the projection of a row long enough to load |
| Loader.AttemptsIncreasing | backend/cmd/loader.go:35 | the inserts come in increasing row order |
| Loader.AttemptsBound | backend/cmd/loader.go:35-38 | the header never yields an insert, so there are at most as many inserts as data rows |
| Loader.AttemptsComplete | backend/cmd/loader.go:35-38 | every loadable row yields its insert |
| Loader.AttemptsStep | backend/cmd/loader.go:35-67 | one more row adds its insert exactly when it is loadable |
| Loader.SuccessesSnoc | backend/cmd/loader.go:68-70 | one more insert adds one to the count exactly when it succeeds |
| Loader.LoadRow | backend/cmd/loader.go:42-67 | one data row gives the projection of its columns and the coordinates scanned from its geodata |
| Loader.LoadSchools | backend/cmd/loader.go:34-73 | the loop issues the inserts of the loadable rows in order and counts the successful ones, which number at most the rows minus one |
| Client.PendingAfter | frontend/app.js:74-77 | after a keystroke a lookup is pending exactly when the trimmed text has at least 2 characters, and it holds that trimmed text |
| Client.LookupsAreLong | frontend/app.js:73-78 | every lookup sent is a trimmed text of at least 2 characters |
| Client.BurstLeavesLast | frontend/app.js:73-78 | keystrokes only replace the pending lookup: after a burst, the last keystroke's text is pending and nothing has been sent |
| Client.DebounceOneLookup | frontend/app.js:73-78 | a burst of keystrokes followed by timer firings sends at most one lookup, the last keystroke's trimmed text, and sends it exactly when a timer fired and that text is long enough |
| Client.RunAppend | frontend/app.js:73-78 | running two event sequences one after the other is running their concatenation |
| Client.FiresAfter | frontend/app.js:77 | timer firings send the pending lookup once and nothing more |
| Client.SearchStep | frontend/app.js:73-78 | a keystroke sends nothing and leaves the lookup for its trimmed text pending; a firing clears the timer and sends exactly the pending lookup, if any |
| Client.SuggestionListShape | frontend/app.js:84-89 | the list has one to five entries; an empty answer shows exactly the placeholder; otherwise entry k is school k, shown by its short name or else its full name, marked when it has reviews |
| Client.SuggestionList | frontend/app.js:84-85 | the list has one to five entries, and shows the placeholder exactly when the answer is empty |
| Client.RenderOnStep | frontend/app.js:197-221 | one loop step pushes nothing for a missing canvas and the entry's chart for a drawn entry; a throwing entry, or one whose canvas is in use, ends the rendering with the charts drawn so far |
| Client.RenderedAll | frontend/app.js:197-221 | a loop that ran to its end drew the whole rendering |
| Client.Draw | frontend/app.js:197-223 | drawing keeps the status, title and counters and the charts already listed, and puts no new chart on a canvas already in use |
| Client.RenderOnFree | frontend/app.js:197-221 | with every canvas free, the loop renders as it does on a fresh page |
| Client.RenderOnAvoids | frontend/app.js:197-221 | no chart is drawn on a canvas in use |
| Client.RenderOnCollides | frontend/app.js:197-221 | an entry with a canvas already in use makes the loop throw, after drawing only entries before it |
| Client.RenderFromHolds | frontend/app.js:197-221 | a loop that ran to its end holds a chart on every canvas of its entries |
| Client.Started | frontend/app.js:125-133 | a started session shows the processing status, no charts and a disabled button, and keeps the title and counters |
| Client.Settled | frontend/app.js:135-224 | settling keeps the charts listed; a failed request shows the error status and re-enables the button and changes nothing else; a reply shows the ready status and its school name |
| Client.MidScreen | frontend/app.js:125-224 | a session on a well-formed reply draws exactly the charts of its entries and ends with the button enabled |
| Client.SessionFails | frontend/app.js:135-140 | a failed request shows the error status and no charts, re-enables the button, and leaves the title and counters as they were |
| Client.SessionSucceeds | frontend/app.js:142-223 | a well-formed reply shows the ready status, the school name and the counters; it draws one chart per analytics entry with a canvas, in order, each its entry's chart, and re-enables the button |
| Client.SessionThrowsStaysDisabled | frontend/app.js:142-221 | a reply that makes the handler throw leaves the button disabled after the ready status is shown |
| Client.Resubmit | frontend/app.js:125-224 | submitting again and getting the same reply redraws the same screen |
| Client.LateReplyWins | frontend/app.js:125-224 | with no stale-response guard, an earlier request settling last shows the ready status and its own school name; the later request's charts stay in the list, followed by the earlier one's drawn on the canvases still free, and the button ends enabled |
| Client.LateReplyCollides | frontend/app.js:125-224 | when both replies have an entry with a canvas at the same index, the late reply throws: the earlier request's charts stay at the front, and the late one adds only charts of entries before that index |
| Client.Page.constructor | frontend/app.js:4-12 | the page starts with an empty input, no timer, no charts, an enabled button and a closed panel |
| Client.Page.Input | frontend/app.js:73-78 | the `input` handler replaces the pending lookup by the one for the trimmed text, or hides the list for a short text |
| Client.Page.TimerFires | frontend/app.js:77 | the timer sends the pending lookup and clears it |
| Client.Page.LookupAnswered | frontend/app.js:77 | an answer, or an empty list for a null body, is rendered and the list shown |
| Client.Page.RenderSuggestions | frontend/app.js:82-103 | the list is the suggestion list of the answer, shown |
| Client.Page.SelectSuggestion | frontend/app.js:91-94 | clicking a school fills in its full name, hides the list and starts its analysis; the placeholder does nothing |
| Client.Page.KeyPress | frontend/app.js:80 | Enter acts as a click on the search button, any other key does nothing |
| Client.Page.ClickSearch | frontend/app.js:105-109 | a trimmed text shorter than 3 only raises the alert; a longer one starts its analysis; a disabled button ignores the click |
| Client.Page.StartAnalysis | frontend/app.js:125-135 | an empty query changes nothing; otherwise the query is shown, the button disabled, the status set to processing, every chart destroyed and the list emptied, and the request sent |
| Client.Page.AnalysisSettled | frontend/app.js:135-223 | the page after the reply is the settled screen of the session model |
| Client.Page.DrawEntries | frontend/app.js:197-223 | the loop pushes every chart of the rendering, stops at the first entry that throws, and re-enables the button only when it ran to the end |
| Client.Page.ClickChart | frontend/app.js:214-219 | a click on a bar chart opens the panel resolved from the first element hit; other clicks change nothing |
| Client.Page.CloseReviews | frontend/app.js:120-123 | the panel is closed and the two-column layout left |
| Bridge.Strs | backend/handlers/schools.go:167 | an encoded list of texts counts as many reviews as it has texts and is its own example list, each element the encoded text |
| Bridge.SeriesWire | backend/analytics/engine.go:99-113 | a series without points is encoded as `null`, otherwise as an array of the same length |
| Bridge.AscendingDistinct | backend/handlers/schools.go:167 | map keys written in ascending order are distinct |
| Bridge.ResultProps | backend/analytics/engine.go:14-18 | an encoded result reads back its type, its name and its payload |
| Bridge.EntryNeverThrows | frontend/app.js:200-220 | an encoded result not of the stacked type never throws, and with a canvas it is drawn as a key → value bar chart |
| Bridge.BarsDrawn | frontend/app.js:197-221 | entries that are each skipped or drawn as bars render without error, one bar chart per canvas, in order |
| Bridge.ItemsDrawn | frontend/app.js:197-221 | a list of encoded non-stacked results renders without error, one bar chart per canvas, in order |
| Bridge.WireDrawn | backend/handlers/schools.go:155-167 | a response whose results are "bar" and "line" renders without error, one bar chart per result whose canvas exists |
| Bridge.ReportDrawn | backend/analytics/engine.go:109-114 | the analysis of any review list renders without error: four entries, each drawn as bars when its canvas exists; the stacked branch is never taken |
| Bridge.ThemeBarsOrdered | frontend/app.js:209-212 | a themes chart has one bar per theme, in strictly ascending theme order |
| Bridge.ThemeBarHeights | frontend/app.js:212 | each theme's bar is as high as the number of texts stored under it |
| Bridge.ThemeDrillDown | frontend/app.js:214-219 | clicking a theme's bar opens the panel of that theme, listing its texts in order |
| Bridge.DepthBarsAreZero | frontend/app.js:163-212 | the average-length chart has one bar per class, in ascending class order, and every bar has height 0 whatever the averages are |
| Bridge.DepthClassOrder | backend/analytics/engine.go:48 | the negative class is shown before the positive one |
| Bridge.PointFields | backend/analytics/engine.go:95-98 | an encoded point has neither `count` nor `examples` |
| Bridge.SeriesAsIndexMap | frontend/app.js:209-219 | the series is drawn as bars labelled by position, all of height 0, and a click opens an empty panel titled with the position; no dated review gives a `null` payload and no bars |

## Left out

- These are not modelled: HTTP, the database, Selenium and the page's DOM.
  - Request and lookup answers are parameters (`Client.Reply`, the data of
    `Client.Page.LookupAnswered`).
  - The scraper's inputs are the lists of link targets and comment texts.
  - The loader's rows are given as `seq<seq<string>>`, so CSV decoding is
    not modelled.
  - The page's DOM elements are assumed present. Only the chart canvases
    vary, as the set `slots`.
- Canvas reuse: an entry drawn on a canvas that still holds a chart throws
  (`Client.Outcome`). Chart.js 3 and later do so, and the `indexAxis`
  option the page uses needs Chart.js 3. The library itself is not part of
  this model.
- Chart.js, the 2GIS map and its markers and popups (`frontend/app.js:45-71`
  and `frontend/app.js:95-98`), and the particle background
  (`frontend/app.js:24-36`) are not modelled. A drawn chart is its data and orientation as the `Chart`
  datatype.
- The 300 ms timer is the explicit event `Fired`. Overlapping analyses are
  interleavings of `StartAnalysis` and `AnalysisSettled`. There is no real
  concurrency.
- Floating point: JavaScript numbers and Go `float64` are `real`. The model
  has no rounding or NaN, and the `/ 100` percentages and averages are
  exact.
- `Normalizer.ClickBar`: the panel heading `theme (count отзывов)`
  (`frontend/app.js:219`) is kept as the structured (label, count,
  examples) value `Normalizer.Panel`. JavaScript's formatting of a number
  as text is not modelled.
- `Engine.LowerChar`: it lower-cases Basic Latin and Cyrillic capitals
  only. The rest of Unicode's `strings.ToLower` table is not modelled.
- `Engine.YearKey`: it and the length test before it count characters
  where Go's `len(r.PublishedAt)` and the slice `[:10]` count octets. The
  two agree on the ASCII dates that are stored.
- `Client.PendingAfter` and `Normalizer.WrapLabel`: they count code points
  where JavaScript's `length` counts UTF-16 units. The two agree on the
  Basic Multilingual Plane, which holds all Latin and Cyrillic text.
- `Json.LookupAt` and `Json.KeysValuesAligned`: `Object.keys` is read as
  the object's keys in the stored order. JavaScript lists integer-like keys
  first. The backend's objects (theme and class names) have no such keys.
- `Scraper.FirstDate` and `Scraper.DigitRun`: `\d` is read as the ASCII
  digits only. Python also matches other Unicode decimal digits.
- `Loader.Coordinates`: `fmt.Sscanf` is the parameter `scan`, the list of
  numbers it reads. Float parsing is not modelled.
- `Loader.LoadSchools`: the database's answer to each insert is the
  parameter `exec`, a function of the insert. `INSERT IGNORE` and the state
  of the table are not modelled.
- `Engine.SortStrings`: Go's in-place `sort.Strings` is modelled as an
  insertion sort on a sequence value, with the same result.
- `Engine.GetTheme`: the keyword groups are a parameter, not loaded from
  `keywords.json` (`backend/analytics/engine.go:22-31`). The random order of
  Go's map iteration is modelled by allowing any matching group.
- `Percent.Step`: invalid UTF-8 is decoded as `urllib.parse.unquote` does
  with `errors='replace'`, one replacement character per maximal invalid
  prefix. Python's other error handlers are not modelled.
- Output is not modelled: the loader's final `Printf`
  (`backend/cmd/loader.go:75`), the scraper's log lines, and the
  exception handler (`parsers/scraper_engine.py:139-140`).
- Go's JSON escaping of strings and invalid UTF-8 are not modelled. A
  `string` is encoded as itself.
- The response handler's own rules are not modelled: the query falling back
  to the full name (`backend/handlers/schools.go:118-121`) and the neutral
  count `total - pos - neg` (`backend/handlers/schools.go:161`). The model
  takes the counters as part of the reply.
