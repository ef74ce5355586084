# Real-estate crawler core, modelled in Dafny

This project models the decision and transformation logic of a small property-listing crawler. The crawler serves one property portal and has a results web page. The model covers:

- **The search log** (`ScrapeLogger`, with `CanonicalJson` and `Dicts`). Each crawl is logged as canonical JSON text with a time stamp. Two filter sets are compared by containment ("is this search answered by a broader recent one?"). The log is scanned newest first inside a time window, which decides whether to crawl again.
- **The crawl** (`Scraper`, `ResponseCache`, `LinkGenerator`). It covers:
  - the two-hour response cache;
  - the "needs update" test against stored price and size;
  - the fail-open price and size pre-filter;
  - detail-page merging with the default property kind and the project-page short cut;
  - projection onto the 54-column schema;
  - the batch write;
  - the page count;
  - the two selection passes of the crawl;
  - the portal's `key:min~max;…` search link.
- **Normalisation** (`Normalizer`, `Decimal`). It covers `to_number`, `parse_price`, room truncation, and the per-row clean columns. Python's `float()` is modelled on the plain decimal forms.
- **Market analysis and scoring** (`MarketAnalysis`, `WorthIt`). It covers:
  - the size-interval table and search-range expansion;
  - grouping listings into (location, kind, condition, interval) segments with count, mean, median, min and max;
  - segment choice with fallbacks;
  - the deviation percentage and its label;
  - the five-part 0–100 score;
  - the legacy proxy score;
  - the four columns the batch job writes per listing.
- **The results query** (`AppQuery`): the district-code table, and the SQL text plus parameter list built from the page's filters.

The model has no side effects. The databases, the clock, the network and the HTML parser become explicit values:

- the tables are sequences or maps passed in and returned;
- `now` is an integer number of seconds;
- a fetched page is an `Option<string>`;
- the parsed page is the result of a function parameter.

Python values in filter dictionaries and listings are `Val = Null | Bool | Int | Str`. Python truthiness is the predicate `Truthy`. Prices, sizes and percentages are `real`.

Where the natural reading of the program and its code disagree, the model states what the code does. Where the code is wrong, as under Findings, a corrected definition is proved beside it:

- **Reuse of a recent search.** `is_subset_search`, as the program has it, is `ScrapeLogger.IsSubsetSearch`. The intended containment is `ScrapeLogger.IsContainedSearch`. The scan and `should_scrape` take a `Reading` argument: `AsWritten` asks the first, `Corrected` the second. Every property of the scan below holds for both. `ScrapeLogger.ShouldScrapeReusesNarrower` and `ScrapeLogger.ShouldScrapeMissesBroader` give logs on which the two decisions differ.

- **Project pages.** Listings under `/uj-lakas/` go through the same change test as any other listing. `listing_needs_update` has no exception for them.
- **Page count.** It is `int(total / 12) + 1`, not a ceiling. See Findings.
- **Batch write.** The `listings` table declares no key, so `INSERT OR REPLACE` appends rows. See Findings.
- **Pre-filter on "45 M Ft".** A card price written as "45 M Ft" cannot be read by the pre-filter, because "Ft" is not removed before `float`. Such listings are therefore kept (`Scraper.PriceFilterMillionsWithCurrency`).

## Model

| member | source | states |
|---|---|---|
| ScrapeLogger.LogScrape | scrape_logger.py:17-40 | One row is appended, stamped with the time of the call; earlier rows are untouched. The stored text parses back to exactly the filter pairs, sorted by key, and a missing filter set is logged as `{}`. |
| CanonicalJson.ParseSerialise | scrape_logger.py:20-21 | Round trip of `json.dumps(sort_keys=True, separators=(',',':'))`: parsing the text gives back the same pairs in key order. |
| CanonicalJson.SerialiseCanonical | scrape_logger.py:20-21 | Two filter dictionaries are written as the same text exactly when they hold the same pairs, whatever the order they were built in. |
| CanonicalJson.ParseValueEncode | scrape_logger.py:21 | Each JSON value (null, boolean, integer, string with escapes) reads back as itself, whatever text follows it. |
| CanonicalJson.ParseStringLitEncode | scrape_logger.py:21 | An escaped JSON string (including `\uXXXX` escapes under `ensure_ascii`) reads back as the original string. |
| CanonicalJson.Hex4RoundTrip | scrape_logger.py:21 | A four-digit hex escape reads back as its code unit. |
| CanonicalJson.ParseIntEncode | scrape_logger.py:21 | A decimal integer, negative or not, reads back as itself. |
| CanonicalJson.ParseDistinct | scrape_logger.py:137 | Whatever `json.loads` accepts yields a dictionary whose keys are distinct (a later duplicate key wins). |
| CanonicalJson.Serialise | scrape_logger.py:20-21 | The stored text is a JSON object, enclosed in braces. |
| Dicts.SortByKeyCanonical | scrape_logger.py:20-21 | `sort_keys` gives two filter sets the same order exactly when they hold the same pairs. |
| Dicts.SortByKey | scrape_logger.py:20-21 | Sorting by key keeps exactly the pairs it was given. |
| ScrapeLogger.LoggedIsInLog | scrape_logger.py:46-64 | After a search is logged, `isInLog` finds it for any filter set with the same pairs, in any order. |
| ScrapeLogger.IsInLogIff | scrape_logger.py:46-64 | On a log written by `log_scrape`, `isInLog` holds exactly when some logged filter set has the same pairs as the query. |
| ScrapeLogger.Compact | scrape_logger.py:118 | The pairs kept are exactly those whose key is not `sort` and whose value is truthy. |
| ScrapeLogger.CompactDistinct | scrape_logger.py:139 | Dropping `sort` and falsy entries keeps the keys distinct. |
| ScrapeLogger.IsSubsetSearchEmptyHistory | scrape_logger.py:72-73 | Edge case: an empty historical filter set contains nothing. |
| ScrapeLogger.NumericKeysDirectional | scrape_logger.py:86-98 | For the six listed numeric keys, a `min_` value is satisfied iff it is at least the historical one, and a `max_` value iff it is at most the historical one. |
| ScrapeLogger.UnparsableBoundSkipped | scrape_logger.py:87-100 | A listed numeric value that `float` rejects is skipped, not failed. |
| ScrapeLogger.CrawlerKeysMatchExactly | scrape_logger.py:101-104 | The crawler's range keys (`ar_min`, …) are not in the numeric list, so they are satisfied only by an equal historical value. |
| ScrapeLogger.HistoryOnlyKeyAccepted | scrape_logger.py:76-83 | A historical constraint on a key the current search does not set is never looked at: such a search is accepted. |
| ScrapeLogger.IsSubsetSearchIgnoresHistoryOnlyKeys | scrape_logger.py:76-106 | The accepted search above admits a listing that the historical search excluded, so the cached results would miss it; the intended containment rejects it. |
| ScrapeLogger.HistoryOnlyKeyAdmits | scrape_logger.py:76-83 | A flat whose every figure is 60 is admitted by the current search `jelleg=lakas`, but the historical search with `ar_max=50` excludes it. |
| ScrapeLogger.ContainedInItself | scrape_logger.py:67-106 | A non-empty filter set is contained in itself, in the program's reading and in the intended one. |
| ScrapeLogger.CrawlerRangeNotSubset | scrape_logger.py:86-104 | As written: a results-page search `meret_min="50"` is not contained in the logged crawl `meret_min=31`, which is broader. |
| ScrapeLogger.CrawlerRangeContained | scrape_logger.py:86-98 | Corrected: with both spellings of the range keys compared by direction, the same pair is contained. |
| ScrapeLogger.HistoryOnlyKeyRejected | scrape_logger.py:76-83 | Corrected: a historical constraint the current search does not repeat makes containment fail. |
| ScrapeLogger.IsContainedSearchSound | scrape_logger.py:67-70 | The corrected containment keeps the promise in the docstring: every listing the current search admits was admitted by the historical search. |
| ScrapeLogger.Window | scrape_logger.py:124-130 | The scanned rows are exactly the logged rows stamped strictly after `now − hours_limit`. |
| ScrapeLogger.SortNewestFirst | scrape_logger.py:129 | The sort is a permutation of the window. |
| ScrapeLogger.SortNewestFirstSorted | scrape_logger.py:129 | The rows come newest first. |
| ScrapeLogger.ScanRows | scrape_logger.py:126-132 | The scan visits exactly the rows inside the window, newest first. |
| ScrapeLogger.FirstMatch | scrape_logger.py:135-144 | The loop stops at the first row that passes the test, and passes over only rows that fail it. |
| ScrapeLogger.FirstIsNewest | scrape_logger.py:129-142 | The first compatible row of the scan is a logged row inside the window, and no compatible row inside the window is newer. |
| ScrapeLogger.WindowNone | scrape_logger.py:126-146 | When the scan finds nothing, no logged row inside the window passes the test. |
| ScrapeLogger.CompatibleParses | scrape_logger.py:136-141 | A row is compatible only if its stored filters parse as JSON. |
| ScrapeLogger.FirstCompatible | scrape_logger.py:135-146 | For either reading (`AsWritten` is the program's `is_subset_search` at line 141): finds nothing iff no row is compatible. Otherwise it returns the logged (unstripped) filters of the first compatible row. Rows that do not parse count as incompatible. |
| ScrapeLogger.FindRecentNone | scrape_logger.py:108-146 | For either reading: no filters are found exactly when no row inside the window is compatible with the stripped search. |
| ScrapeLogger.FindRecentSome | scrape_logger.py:108-146 | For either reading: found filters are those of a newest compatible row inside the window. |
| ScrapeLogger.OneRowScan | scrape_logger.py:108-146 | On a log holding one recent search, the scan returns that search's filters in key order exactly when the chosen containment accepts the current search against them. |
| ScrapeLogger.ShouldScrape | scrape_logger.py:149-159 | For either reading: the decision to crawl and the returned filters are exclusive, so it crawls iff nothing is returned. |
| ScrapeLogger.ShouldScrapeSpec | scrape_logger.py:149-159 | For either reading: crawl exactly when the scan finds nothing; otherwise the found filters are returned unchanged. |
| ScrapeLogger.ShouldScrapeReusesNarrower | scrape_logger.py:76-83 | As written: after logging `{"ar_max": 50, "jelleg": "lakas"}`, the search `{"jelleg": "lakas"}` is not crawled, and the narrower logged filters come back. Corrected: it is crawled. |
| ScrapeLogger.ShouldScrapeMissesBroader | scrape_logger.py:86-104 | As written: after logging `{"meret_min": 31}`, the search `{"meret_min": "50"}` is crawled again. Corrected: the broader logged crawl is reused. |
| ResponseCache.Get | scraper.py:38-48 | A page comes back iff its entry is younger than two hours. A stale entry is deleted, and nothing else changes. |
| ResponseCache.Put | scraper.py:50-53 | The entry for the URL becomes (text, now); all other entries stay. |
| ResponseCache.ClearExpired | scraper.py:55-62 | Exactly the entries stamped before `now − 2h` are removed; the rest are unchanged. |
| ResponseCache.GetChangesOnlyItsEntry | scraper.py:38-48 | A lookup never adds an entry and never touches another URL's entry. |
| ResponseCache.PutThenGet | scraper.py:38-53 | A page stored at `t` is returned by a lookup at `now` exactly when `now − t` is under two hours. |
| ResponseCache.ClearBoundary | scraper.py:43-60 | After a clear no entry is older than two hours. An entry exactly two hours old survives the clear, though a lookup no longer returns it. |
| ResponseCache.ClearIdempotent | scraper.py:55-62 | Clearing twice at the same time is clearing once. |
| ResponseCache.ClearKeepsFresh | scraper.py:38-62 | A clear never removes a page that a lookup would still return. |
| Scraper.NeedsUpdateAfterStore | scraper.py:66-81 | A listing whose own price and size are stored needs no update. It needs one again as soon as the stored price differs. |
| Scraper.NewListingNeedsUpdate | scraper.py:68-70 | A URL not in the table always needs fetching. |
| Scraper.PriceFilterNumber | scraper.py:91-106 | Only a text price can be read. |
| Scraper.SizeFilterNumber | scraper.py:117-122 | The size read is non-negative, and it is absent exactly when the text has no digit. |
| Scraper.ShouldProcess | scraper.py:83-132 | A project page is always kept. A listing is dropped only when its price is rejected by a price bound or its size by a size bound. |
| Scraper.OutOfBoundsIff | scraper.py:108-112 | A number is out of bounds iff it is below a parsed lower bound, or above a parsed upper bound while no lower bound failed to parse. |
| Scraper.NoFiltersKeepsAll | scraper.py:95-130 | Without price or size bounds every listing is fetched. |
| Scraper.PriceOutsideRejected | scraper.py:108-112 | A readable non-zero price outside the bounds drops the listing. |
| Scraper.SizeOutsideRejected | scraper.py:117-126 | A readable size below a parsed `meret_min`, or above a parsed `meret_max` when no `meret_min` failed to parse, drops the listing. |
| Scraper.UnparsableMinSkipsPrice | scraper.py:109-114 | A lower price bound that `float` rejects switches the whole price check off. |
| Scraper.UnreadablePriceKept | scraper.py:103-108 | A price that cannot be read, or reads as zero, never drops a listing. |
| Scraper.InsideBoundsKept | scraper.py:95-130 | A price and size inside every supplied bound keep the listing. |
| Scraper.PriceFilterMillions | scraper.py:97-98 | "n M" is read as n million forints. |
| Scraper.PriceFilterForints | scraper.py:100-104 | "n Ft" is read as n forints. |
| Scraper.PriceFilterMillionsWithCurrency | scraper.py:97-98 | "45 M Ft" cannot be read, because the currency is not removed, so the price check is skipped. |
| Scraper.CurrencyDoesNotParse | scraper.py:97-104 | `float` rejects a price that still carries "Ft" after the "M" is removed. |
| Scraper.SizeFilterOfArea | scraper.py:120-122 | "n m²" is read as n. |
| Scraper.FromPairs | scraper.py:271 | The details built from label/value lists hold distinct labels. Each label maps to the value of its last pair among the first min(len) pairs. |
| Scraper.FromPairsLast | scraper.py:271 | A label that does not occur later among the zipped pairs maps to its own value. |
| Scraper.PageDetails | scraper.py:268-274 | The address is always recorded under `lokáció` and overrides a grid label of that name; every other label comes from the grid. |
| Scraper.GetListingDetails | scraper.py:241-277 | A project URL gets fixed details without touching the cache. For other URLs, details are empty exactly when there is no fresh non-empty cached body and the request failed. A non-string URL gives no details. |
| Scraper.DetailsReuseCachedBody | scraper.py:255-265 | A body fetched at `t` is reused for two hours, whatever the network would answer; after that the page is fetched again. |
| Scraper.DetailsOfPage | scraper.py:265-274 | A freshly fetched page's non-repeated grid labels are details with their values, and the address is recorded. |
| Scraper.DefaultKind | scraper.py:146-152 | The default kind is truthy: "lakás" iff the search kind was `lakas`, "ház" iff `haz`, otherwise "telek". |
| Scraper.KindDetails | scraper.py:146-152 | After the default is applied, `Jelleg` is truthy and every other detail is unchanged. |
| Scraper.ToRow | scraper.py:159 | A row has one entry per schema column, in schema order, holding the merged value or `None`. |
| Scraper.RowReadBack | scraper.py:159 | The row's `url`, `size` and `price_huf` columns hold the merged listing's values. |
| Scraper.JellegNotAColumn | scraper.py:154-177 | The temporary search-kind field is not a schema column, so it never reaches the table. |
| Scraper.MergedValue | scraper.py:146-155 | A merged field is the default kind for `Jelleg` when the details lack a truthy one. Otherwise it is the detail's value when the page has that label, else the collected value. |
| Scraper.ColumnPositions | scraper.py:167-177 | The schema has 54 columns, with `url`, `size`, `price_huf`, `Jelleg` and `lokáció` at their fixed positions. |
| Scraper.ProcessListing | scraper.py:134-164 | The detail step fails exactly on a `KeyError`: the listing has no `url`, or the details lack a truthy `Jelleg` and the listing has no `jelleg` to default from. |
| Scraper.ProcessListingColumns | scraper.py:154-159 | Each column of the row holds the detail's value when the page names that column, and otherwise the collected value. The temporary `jelleg` field never appears. |
| Scraper.ProcessListingHasKind | scraper.py:146-159 | Every stored row has a truthy `Jelleg`. |
| Scraper.ProcessListingKeepsCollected | scraper.py:154-159 | The URL, price and size stored are the collected ones when the detail page has no label of the same name. |
| Scraper.BatchUpsert | scraper.py:191-211 | As written: each URL's row count grows by its count in the batch, and an empty batch changes nothing. |
| Scraper.BatchUpsertDuplicates | scraper.py:191-211 | As written: writing a stored listing again leaves two rows for its URL. |
| Scraper.UpsertByUrl | scraper.py:191-211 | Corrected: after the write each URL of the batch has exactly one row, and all other URLs keep their rows. |
| Scraper.UpsertRow | scraper.py:191-211 | Corrected, for one row: the row is last, its URL occurs once, and other URLs are untouched. |
| Scraper.UpsertByUrlSingle | scraper.py:191-211 | A one-row batch is the single-row upsert. |
| Scraper.UpsertRowIdempotent | scraper.py:191-211 | Writing the same row twice is writing it once. |
| Scraper.ExistingListings | scraper.py:292-293 | The change map's keys are exactly the stored URLs. |
| Scraper.ExistingLastWins | scraper.py:293 | When a URL has several rows, the last one is the one remembered. |
| Scraper.LastRowUnchanged | scraper.py:66-81 | A listing whose price and size equal those of the last stored row for its URL needs no update. |
| Scraper.RescrapeUnchanged | scraper.py:66-81 | Once a listing is stored (as written or corrected), collecting it again with the same price and size does not fetch it again. |
| Scraper.CardListingKeys | scraper.py:330-339 | A collected listing has exactly the eight keys, with URL `BASE_URL + href` and the search kind. |
| Scraper.CardListingSize | scraper.py:333 | The collected size is the card's size text, or `None` when the card has none. |
| Scraper.CardListingPrice | scraper.py:335 | The collected price is the card's price text, or `None` when the card has none. |
| Scraper.CardListingProcessed | scraper.py:134-159 | The detail step always succeeds on a collected listing, and stores the card's URL. |
| Scraper.SelectOnePass | scraper.py:356-372 | The listings fetched are exactly the collected ones that both need an update and pass the pre-filter, in collection order. |
| Scraper.Successes | scraper.py:395-400 | The stored rows are exactly the successful results. |
| Scraper.ProcessAllCards | scraper.py:387-400 | Every collected card yields a row, and the rows are the cards' listings processed one for one, in card order. |
| Scraper.AllProcessed | scraper.py:387-400 | When every selected listing's detail step succeeds, the stored rows are the listings' rows one for one, in order. |
| Scraper.SuccessesAll | scraper.py:395-400 | When no worker fails, every result is stored, in order. |
| Scraper.PageCount | scraper.py:307 | As written: at least one page, and `(pages − 1) * 12 <= total < pages * 12`. |
| Scraper.PageCountExtraPage | scraper.py:307 | As written: for a positive multiple of twelve, the pages before the last already hold every listing, so the last page requested is empty. |
| Scraper.PagesNeeded | scraper.py:307 | Corrected: the fewest pages of twelve that hold every listing, at least one. |
| Scraper.PageCountVersusNeeded | scraper.py:307 | The two counts differ exactly on the positive multiples of twelve. |
| LinkGenerator.GenerateLink | link_generator.py:12-47 | The link starts with the list address and "/". |
| LinkGenerator.Range | link_generator.py:22-27 | A range segment is emitted iff some bound is truthy, so a zero bound is dropped. |
| LinkGenerator.RangeBounds | link_generator.py:22-44 | A range segment is `key:` followed by the two bounds around `~`; a missing bound reads back as empty. |
| LinkGenerator.RangeText | link_generator.py:22-44 | A range with some truthy bound is written `key:lo~hi`, each bound shown as the source's f-string shows it, and a falsy bound left empty. |
| LinkGenerator.Plain | link_generator.py:16-17 | A single-valued segment is present iff its value is truthy. |
| LinkGenerator.PlainShape | link_generator.py:16-30 | A single-valued segment is `key:value`. |
| LinkGenerator.SegmentKeysInOrder | link_generator.py:16-44 | The segments' keys follow the fixed order jelleg, ertekesites, ar, elhelyezkedes, meret, szoba. Each optional one is present iff its values are truthy; `ertekesites` is always present. |
| LinkGenerator.LinkSegments | link_generator.py:47 | When no value contains ";", the text after the address splits on ";" into exactly the segments. |
| Common.SplitJoin | link_generator.py:47 | Joining segments that contain no ";" with ";" and splitting again gives the segments back. |
| Normalizer.KeepNumberChars | normalizer.py:10 | Exactly the digits, commas and dots are kept. |
| Normalizer.KeepNumberCharsIdempotent | normalizer.py:10 | Filtering text that is already clean changes nothing. |
| Normalizer.ToNumber | normalizer.py:5-7 | A falsy value gives `None`. |
| Normalizer.ToNumberSpec | normalizer.py:9-22 | `to_number` is the decimal reading of the filtered text with every comma made a dot. The lone-comma rule makes no difference. |
| Normalizer.ToNumberAccepts | normalizer.py:9-22 | A value is read iff its filtered text has a digit and at most one separator. |
| Normalizer.ToNumberRange | normalizer.py:5-22 | The result is `None` for a falsy value and never negative. |
| Normalizer.ToNumberRoundTrip | normalizer.py:5-22 | The decimal text of a natural number is read back as that number. |
| Normalizer.ToNumberDecimalComma | normalizer.py:13-14 | "a,b" with digit runs a and b is the decimal a.b, e.g. "264,9" is 264.9. |
| Normalizer.ToNumberThousandsCommas | normalizer.py:17-22 | Two commas make two dots, so "1,234,567" gives `None`. |
| Normalizer.ToNumberWithUnit | normalizer.py:10 | Digits followed by a unit such as " m²" read as the digits' value. |
| Normalizer.ParsePrice | normalizer.py:23-25 | A falsy price gives `None`. |
| Normalizer.CleanPriceRemoves | normalizer.py:28-35 | The cleaned text has no space, no no-break space and no "€". |
| Normalizer.MillionsPrefix | normalizer.py:38 | The millions match is a non-empty leading run of digits, commas and dots immediately followed by "M". |
| Normalizer.ParsePriceMillions | normalizer.py:38-50 | With a millions match, the price is the match read with commas as dots, times 1,000,000, or `None` (no fallthrough). The price is never negative. |
| Normalizer.ParsePriceViaMillions | normalizer.py:38-44 | With a millions match, the price is present exactly when `float` reads the match with commas as dots, and is then that value times a million. |
| Normalizer.MillionsShape | normalizer.py:28-38 | "a,bM" is already clean, and its millions match is "a,b". |
| Normalizer.ParsePriceDigits | normalizer.py:27-50 | A price whose cleaned text is only digits is the digits' value. |
| Normalizer.ParsePriceMillionsRoundTrip | normalizer.py:38-42 | "nM" is n million. |
| Normalizer.ParsePriceDecimalMillions | normalizer.py:38-42 | "a,bM" is a.b million, e.g. "1,5M" is 1,500,000. |
| Normalizer.ParsePriceForints | normalizer.py:27-48 | "n Ft" is n. |
| Normalizer.RoomsClean | normalizer.py:84 | Rooms are `None` iff `to_number` is; otherwise the reading truncated toward zero. |
| Normalizer.Truncate | normalizer.py:84 | `int()` truncates toward zero. |
| Normalizer.EuroCleanIsToNumber | normalizer.py:86 | Removing "€" before `to_number` changes nothing. |
| Normalizer.NormaliseRow | normalizer.py:79-105 | Each clean column is the matching parser applied to its raw column, for the same URL. |
| Normalizer.NormaliseAll | normalizer.py:79-87 | One set of clean values per row read, in table order, each computed from that row alone. |
| Normalizer.WriteByUrl | normalizer.py:89-104 | One `UPDATE … WHERE url = ?`: every row with that URL takes the clean values, and every other row is unchanged. |
| Normalizer.WriteAll | normalizer.py:78-104 | Running the updates in turn keeps every row's URL, and a row whose URL no update names keeps its clean columns. |
| Normalizer.WriteAllLastWins | normalizer.py:78-104 | A row ends with the last update that names its URL. |
| Normalizer.NormaliseWritesLast | normalizer.py:76-104 | After the whole pass, every row holds the clean values computed from the last row read with its URL; rows sharing a URL end equal. |
| Normalizer.NormaliseDistinctUrls | normalizer.py:76-104 | Where the table's URLs are distinct, every row holds the clean values of its own raw columns. |
| Decimal.ParseUnsignedAccepts | normalizer.py:20 | `float` on digits and dots accepts iff there is a digit and at most one dot. |
| Decimal.ParseExampleTwoDots | normalizer.py:20 | Example: "1.234.567" is rejected. |
| Decimal.NatToStringRoundTrip | normalizer.py:20 | A natural number's decimal text reads back as itself. |
| Decimal.PyFloatDecimal | normalizer.py:20 | `float` reads "a.b" with digit runs a and b as the decimal a.b. |
| Decimal.PyFloatNeedsDigit | normalizer.py:20 | `float` accepts no text without a digit. |
| Decimal.PyFloatVal | scraper.py:108-124 | `float` of an integer filter value is that integer, and `float(None)` fails. |
| Decimal.Strip | normalizer.py:20 | `float` ignores surrounding white space: the stripped text is no longer than the input and neither starts nor ends with white space. |
| Decimal.StripTrims | normalizer.py:20 | Only white space is removed: the stripped text is a slice of the input with nothing but white space before and after it. |
| MarketAnalysis.IntervalsOrdered | market_analysis.py:13-24 | The table's intervals are finite before the last one and strictly increasing, with gaps between them. |
| MarketAnalysis.SizeInterval | market_analysis.py:29-37 | A size of 0 gives `None`. Otherwise the result is a table interval containing the size, and `None` iff no interval does. |
| MarketAnalysis.SizeIntervalUnique | market_analysis.py:29-37 | The interval returned is the only table interval containing the size. |
| MarketAnalysis.WholeSizesCovered | market_analysis.py:13-24 | Every whole number of square metres lies in some interval. |
| MarketAnalysis.SizeIntervalExamples | market_analysis.py:29-37 | Example: 30.5, 0 and −5 have no interval; 50 lies in 31–50. |
| MarketAnalysis.FirstContaining | market_analysis.py:31-37 | The first interval containing a size is returned, or `None` iff none contains it. |
| MarketAnalysis.Overlapping | market_analysis.py:51-54 | The overlapping intervals are exactly those of the table that meet the range. |
| MarketAnalysis.Expand | market_analysis.py:50-67 | A range meeting no interval is returned as is. Otherwise the result runs from the least lower end to the greatest upper end of the intervals that meet the range. |
| MarketAnalysis.ExpandCovers | market_analysis.py:50-67 | A whole-number search range lies inside its expansion. |
| MarketAnalysis.ExpandLoIsFirst | market_analysis.py:51-60 | The expansion starts at the first interval meeting the range. |
| MarketAnalysis.ExpandHiIsLast | market_analysis.py:51-65 | The expansion ends at the last interval meeting the range; an open top stays open. |
| MarketAnalysis.ExpandFiftySeventy | market_analysis.py:51-67 | Example: 50–70 becomes 31–70. |
| MarketAnalysis.ExpandFiftyOpen | market_analysis.py:51-65 | Example: 50 and above becomes 31 and above, with no upper bound. |
| MarketAnalysis.RequiredIntervals | market_analysis.py:39-67 | No bounds give (None, None). A bound that `float` rejects is the error case. Otherwise the result is the expansion of `(min or 0, max or ∞)`. |
| MarketAnalysis.SegmentRows | market_analysis.py:96-115 | A segment's rows are exactly the selected rows with an interval and that key. |
| MarketAnalysis.RowKeys | market_analysis.py:96-106 | The segment keys are exactly those of the rows with a size interval. |
| MarketAnalysis.Populous | market_analysis.py:108-121 | The segments kept are exactly those with at least two rows, each once. |
| MarketAnalysis.PricePerSqm | market_analysis.py:98 | The price per square metre is positive and times the size gives the price. |
| MarketAnalysis.CalculateMarketStats | market_analysis.py:69-135 | Every segment listed has at least two rows, statistics computed from exactly its rows, and a positive mean. |
| MarketAnalysis.MarketStatsValid | market_analysis.py:69-135 | Every listed segment has at least two rows and a positive mean. |
| MarketAnalysis.StatsMeanPositive | market_analysis.py:123-127 | The mean of positive prices per square metre is positive. |
| MarketAnalysis.MarketStatsSegments | market_analysis.py:108-121 | A segment appears iff at least two rows fall in it, and it appears once. |
| MarketAnalysis.StatsOfBounds | market_analysis.py:123-130 | min ≤ mean ≤ max and min ≤ median ≤ max. Min and max are members' prices per square metre and bound all of them. |
| MarketAnalysis.SortAscendingSorted | market_analysis.py:128 | The median is taken over the sorted prices. |
| MarketAnalysis.SortAscending | market_analysis.py:128 | The sort is a permutation. |
| MarketAnalysis.MedianBounds | market_analysis.py:128 | The median lies between the least and the greatest value. |
| MarketAnalysis.MeanBounds | market_analysis.py:127 | The mean lies between the least and the greatest value. |
| MarketAnalysis.TableGet | market_analysis.py:155 | `market_stats.get(key)` (and `condition_scores.get`) finds the entry of the key, and finds one iff the key is listed. |
| MarketAnalysis.FirstFallback | market_analysis.py:158-169 | Nothing is found iff no segment is a fallback. Otherwise it returns the first fallback in statistics order and its kind: same location and type first, else same district, type and condition. |
| MarketAnalysis.ChooseSegment | market_analysis.py:171-184 | The exact segment is used iff it has statistics, else the first fallback, else nothing. The chosen mean is positive over at least two listings. |
| MarketAnalysis.Compare | market_analysis.py:186-211 | The deviation is the percentage difference from the mean, the difference is the absolute one, and the label is the deviation's label. |
| MarketAnalysis.CompareMonotone | market_analysis.py:186-188 | Against the same segment, a lower price per square metre gives a deviation no larger. |
| MarketAnalysis.SegmentInsight | market_analysis.py:145-211 | Gives an insight iff a segment is chosen. The insight carries the property's interval, its price per square metre, the chosen mean and count, and "exact" iff the own segment has statistics. |
| MarketAnalysis.InsightFigures | market_analysis.py:186-211 | An insight's mean is positive over at least two listings, and its deviation times the mean is 100 × (price per m² − mean). |
| MarketAnalysis.InsightComparison | market_analysis.py:171-184 | The own segment wins when present. Otherwise there is an insight iff a fallback exists, and it is not marked exact. |
| MarketAnalysis.InsightFrom | market_analysis.py:137-150 | An insight needs every input truthy, positive size and price, and an interval for the size. |
| MarketAnalysis.InsightNeedsInputs | market_analysis.py:142-147 | A missing, zero or negative input, or a size in a gap of the table, gives no insight. |
| MarketAnalysis.Label | market_analysis.py:190-200 | The five labels partition the deviation at −15, −5, 5 and 15, each upper bound inclusive. |
| MarketAnalysis.LabelMonotone | market_analysis.py:190-200 | A larger deviation never gets a better label. |
| MarketAnalysis.LabelTextsDistinct | market_analysis.py:191-200 | The five stored label texts are distinct. |
| MarketAnalysis.MarketComponent | market_analysis.py:228-241 | The market points lie in 0–50, at least 30 at or below the mean and under 20 above it. |
| MarketAnalysis.MarketComponentMonotone | market_analysis.py:228-241 | A larger deviation never earns more market points. |
| MarketAnalysis.MarketComponentPoints | market_analysis.py:228-241 | The piecewise-linear pieces meet their end points: −20→50, −10→40, 0→30, 5→15, 10→10, 20→0. |
| MarketAnalysis.RoomComponent | market_analysis.py:247-283 | Room points lie in 5–28. They are 10 when rooms are missing or zero, and above 25 only for houses of at least 300 m². |
| MarketAnalysis.RoomComponentMonotone | market_analysis.py:248-281 | More rooms in the same size never earn fewer room points. |
| MarketAnalysis.HouseRoomPoints | market_analysis.py:250-266 | A house's room points lie in 8–25. |
| MarketAnalysis.ApartmentRoomPoints | market_analysis.py:267-281 | An apartment's room points lie in 5–25. |
| MarketAnalysis.DensityMonotone | market_analysis.py:248-249 | More rooms in the same size never give a lower room density. |
| MarketAnalysis.ConfidenceComponent | market_analysis.py:285-296 | Confidence points lie in 2–15 and take one of the four tiers for two or more listings; 15 iff at least ten. |
| MarketAnalysis.ConfidenceMonotone | market_analysis.py:285-296 | A larger sample never earns fewer confidence points. |
| MarketAnalysis.ConditionComponent | market_analysis.py:298-306 | A listed condition gets its table points, any other gets 5. |
| MarketAnalysis.SizeBonus | market_analysis.py:308-313 | 3 points iff a house over 400 m², else 2 iff an apartment over 150 m², else 0. |
| MarketAnalysis.KindExamples | market_analysis.py:244-245 | Example: the house test lower-cases the kind: "Ház" is a house, "Lakás" is not. |
| MarketAnalysis.LowerIdempotent | market_analysis.py:244 | Lower-casing twice is lower-casing once. |
| MarketAnalysis.ScoreTotal | market_analysis.py:315 | The sum of the five components lies between 10 and 106. |
| MarketAnalysis.Cap | market_analysis.py:316 | The cap is the smaller of the total and 100. |
| MarketAnalysis.EnhancedScore | market_analysis.py:214-316 | With an insight the score is present and lies in 10–100. Without one it is the simple score. |
| MarketAnalysis.ProxyScore | market_analysis.py:221-226 | The simple score exists iff price, size and rooms are present and size and price are non-zero. It then satisfies score × price = rooms × 1000 × size. |
| MarketAnalysis.CheaperDeviatesLess | market_analysis.py:152-187 | In the same segment, a lower price gives a deviation no larger. |
| MarketAnalysis.CheaperInsight | market_analysis.py:137-211 | All else equal, a cheaper property also has an insight, with a deviation no larger and the same sample count. |
| MarketAnalysis.CheaperRanksNoWorse | market_analysis.py:186-200 | All else equal, a cheaper property never gets a worse label. |
| MarketAnalysis.CheaperScoresNoLower | market_analysis.py:214-316 | All else equal, a cheaper property never gets a lower enhanced score. |
| MarketAnalysis.ScoreMonotone | market_analysis.py:229-316 | With everything but the deviation fixed, a smaller deviation never lowers the capped score. |
| WorthIt.RowUpdate | worth_it_score.py:49-76 | Without an insight the update has no deviation, "Ismeretlen" and the no-data text, and the converse holds for each. With one, the label is the deviation's label. |
| WorthIt.StoredScoreIsEnhanced | worth_it_score.py:49-76 | Whichever branch wrote it, the stored score equals the enhanced score, because the fallback recomputes the same simple score. |
| WorthIt.InsightTextDiffers | worth_it_score.py:64-73 | An insight text never reads as the no-data text. |
| WorthIt.AssessmentKnown | worth_it_score.py:66-75 | No assessment label reads as the unknown one. |
| WorthIt.GroupThousandsDigits | worth_it_score.py:64 | The `,` format only inserts commas: without them it is the number's digits. |
| WorthIt.GroupThousandsExample | worth_it_score.py:64 | Example: 1234567 is written "1,234,567". |
| WorthIt.RoundHalfEven | worth_it_score.py:64 | The `.0f` rounding is within one half of the value. |
| WorthIt.RoundWhole | worth_it_score.py:64 | Helper fact: a whole number is not changed by rounding. |
| WorthIt.UpdateAll | worth_it_score.py:43-76 | One update per listing, in table order, each against the statistics of the whole table. |
| WorthIt.Apply | worth_it_score.py:79-92 | `UPDATE … WHERE url = ?` adds no row: the table keeps exactly its URLs, an update of a URL the table lacks writes nothing, and a URL no update names keeps its columns. |
| WorthIt.ApplyLastWins | worth_it_score.py:79-92 | For a URL in the table, the last update that names it is what is stored. |
| WorthIt.JobStoresEveryListing | worth_it_score.py:43-92 | After the job, the table keeps its URLs, and every listing's URL holds the update computed from the last row with that URL, scored against the whole table. |
| WorthIt.JobDistinctUrls | worth_it_score.py:43-92 | Where the table's URLs are distinct, every listing's URL holds the update computed from that listing. |
| AppQuery.DistrictLookup | app.py:12-19 | `budapest` plus the two-digit number i maps to "Budapest <roman i>. kerület" for i from 1 to 23. |
| AppQuery.DistrictKeys | app.py:12-19 | A code is in the table iff it is `budapest01` … `budapest23`. |
| AppQuery.DistrictIndex | app.py:12-19 | Every code in the table is the code of a district from 1 to 23. |
| AppQuery.CodeInjective | app.py:13 | Different districts have different codes. |
| AppQuery.RomanListMatches | app.py:14-18 | The listed numerals are the Roman numerals of 1 to 23, each with a trailing dot. |
| AppQuery.QueryDb | app.py:21-106 | The query fails (the `KeyError`) exactly when a location is given that is not in the district table. |
| AppQuery.QueryDbChecked | app.py:21-106 | Corrected: the query still fails exactly when a location is given that is not in the district table. |
| AppQuery.CheckedRenders | app.py:26-106 | Corrected: the query is the SELECT, one condition per truthy filter in the order type, location, price, size, rooms, then the ordering. |
| AppQuery.TypeStepAppends | app.py:30-37 | A given type adds one `Jelleg = ?` condition whose value maps haz→ház and lakas→lakás and passes anything else unchanged. |
| AppQuery.LocationStepAppends | app.py:39-41 | A given known location adds one `LIKE` condition on `%` + district name + `%`; an unknown one fails. |
| AppQuery.RenderParams | app.py:26-106 | The parameters are the conditions' values, in order. |
| AppQuery.RenderPlaceholders | app.py:26-106 | Each condition adds exactly one `?`, so placeholders equal parameters. |
| AppQuery.CheckedPlaceholders | app.py:43-83 | Corrected: the text always has exactly one placeholder per parameter. |
| AppQuery.AsWrittenPlaceholders | app.py:43-83 | As written: the parameters are those of the correction, but the text has one extra `?` per numeric filter `float` cannot read. |
| AppQuery.ReadableAgrees | app.py:43-83 | When every numeric value reads as a number, the placeholders match the parameters as written. |
| AppQuery.UnreadablePriceExample | app.py:43-49 | `min_price="abc"` gives a text with one `?` and no parameter. |
| AppQuery.OrderAtEnd | app.py:86-106 | At most one ORDER BY, at the end, present iff the sort key is one of the ten known ones. |

## Left out

- Network access, sessions, retries and the per-request delay: I/O. A fetched page is an explicit `Option<string>`.
- The HTML parser (CSS selection of cards, labels, values, address and result total): a foreign library. Its outputs are inputs: a `Card` per listing, a `Page` of label and value lists, and the result total.
- Apartment links of project pages (`get_individual_apartments_from_project`): it only parses HTML and is not called by the crawl.
- The thread pool and the lock: the point is concurrency. The worker step is a pure per-listing function. Results are kept in submission order; `as_completed` order is arbitrary, and the stored set is the same.
- SQLite connections, `CREATE TABLE`/`ALTER TABLE`, commits and the Flask routes and templates: I/O and UI. Tables are sequences or maps passed in and returned. A `SELECT` returns rows in insertion order, and stored values are assumed to read back unchanged.
- Clock reads and ISO time strings: `now` is an integer number of seconds. Timestamps are compared as numbers where the log compares ISO strings. Rows with equal timestamps come out of the scan in log order, whereas SQL leaves their order open.
- Logging output (`print`): no effect on results.
- `statistics.stdev`: a square root over floats. The segment statistics omit it, and the insight does not carry `market_std`.
- MarketAnalysis.EnhancedScore: the final `round(…, 1)` is not applied. The unrounded value is stated, because Python's `round` on binary floats is not exact decimal arithmetic.
- MarketAnalysis.ProxyScore: the `round(…, 2)` of the simple score is not applied, for the same reason.
- Floating point in general: division is exact real division, and `float()` is modelled on plain decimal text only (optional sign and surrounding white space). Exponents, `inf`, `nan` and underscores are not accepted.
- MarketAnalysis.RequiredIntervals: for a range that meets no interval the source returns the parsed floats; the model returns the same range as reals.
- Filter values of the results page: Flask `request.args` values, modelled as strings.
- JSON: the serialiser and parser cover objects mapping strings to null, booleans, integers and strings. Any other text counts as malformed and is skipped, as a `JSONDecodeError` is.
- Float filter values. When the requested size range meets no interval, `get_required_intervals_for_search` returns the parsed floats (market_analysis.py:56-57). The results page passes them to the crawl (app.py:175-184), which logs them, for example `"meret_min":30.2` (scraper.py:414). `Val` has no float case. The program reads such a row back and compares it, but the model skips it as malformed. So a later search that the row answers is served from the log by the program, while the model crawls again.
- LinkGenerator.Format: has no float case. The program writes a float filter value with Python's `str`, for example `30.2` or `50.0`. The model writes only `None`, booleans, integers and text.
- WorthIt.Apply: the table is a map from URL to the four written columns. Rows that share a URL are one entry, so their differing columns before the job are not represented. After the job they hold the same values, as the model states.
- Common.IsDigit: accepts only the ASCII digits 0–9. Python's `\d` and `float()` also accept other Unicode decimal digits, which the model treats as non-digits.
- MarketAnalysis.LowerChar: folds only ASCII capitals, the Latin-1 capitals À–Þ and the letters Ő and Ű (U+0150, U+0170). Python's `str.lower` folds all of Unicode; other capitals are left unchanged here.
- A JSON row that parses to something other than an object: the program's `.items()` would raise an error outside its `except`. The model's parser accepts objects only and skips any other row.
- The `main` entry points' argument handling and the command-line defaults: plumbing.

## Findings

| source | as written | input that shows it | evidently intended | confidence | as-written member | corrected member |
|---|---|---|---|---|---|---|
| scrape_logger.py:86-104 | Only `min_price`…`max_rooms` are compared by direction. The crawler logs `ar_min`, `meret_min`, `szoba_min`…, which are compared for equality, with numbers on one side and text on the other. | A logged crawl `{"meret_min": 31}` and a new search `{"meret_min": "50"}`: not contained. | Range keys in both spellings are compared by direction, so the broader logged crawl is reused. | not executed | ScrapeLogger.ShouldScrapeMissesBroader | ScrapeLogger.CrawlerRangeContained |
| scrape_logger.py:76-83 | The loop visits only the current search's keys, so a constraint set only in the historical search is never checked. | History `{"jelleg": "lakas", "ar_max": 50}`, current `{"jelleg": "lakas"}`: accepted, although the cached results miss listings above 50. | Every historical constraint must also be set, at least as tightly, in the current search. | not executed | ScrapeLogger.ShouldScrapeReusesNarrower | ScrapeLogger.IsContainedSearchSound |
| scraper.py:191-211 | `INSERT OR REPLACE` into a table with no key on `url` appends a second row for a stored URL. | Writing the same listing twice leaves two rows for its URL. | One row per URL, the newest winning. | not executed | Scraper.BatchUpsertDuplicates | Scraper.UpsertByUrl |
| scraper.py:307 | The page count is `int(total / 12) + 1`. | 24 results give 3 pages; the third is empty. | The ceiling of `total / 12`, at least 1. | not executed | Scraper.PageCountExtraPage | Scraper.PagesNeeded |
| app.py:43-83 | Each numeric clause is appended before `float()` is tried, and a `ValueError` only skips the parameter. | `min_price="abc"`: the text has one `?` and there are no parameters, so the query fails to execute. | The clause is appended only with its parameter. | not executed | AppQuery.AsWrittenPlaceholders | AppQuery.CheckedPlaceholders |
