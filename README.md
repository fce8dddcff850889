# FilmMuse core in Dafny

FilmMuse is a movie-discovery site built with Next.js, plus offline scripts that prepare its movie data. This project models the logic of its core and proves properties of that model:

- **OMDb lookup cache** (`OmdbCache`, `src/lib/omdb.ts`). A class over an insertion-ordered map from a normalised title-and-year key to the last answer and the time it was stored.
  - Entries expire after seven days.
  - Past 1000 entries, the key written longest ago is evicted.
  - `fetchOmdbOnce` answers from the cache, or asks the provider and caches the answer, or caches no answer on failure.
- **Data-preparation scripts**, one module each:
  - `BuildRawFromCredits`: the quote-aware CSV line splitter and the row filter.
  - `BuildIndex`: record normalisation and de-duplication by id.
  - `BuildIndexWithOmdb`: poster enrichment through a title-keyed answer cache.
  - `FetchPosters`: the poster merge keyed by id, and the sort by title.
  - `MoviesJsonl`, `NormalizeKaggle`, `NormalizeCredits`: CSV rows to raw records.
  - `CreditsToJsonl`: the Python credits converter.
- **API routes**. `SearchRoute` covers `/api/search`, which forwards to OMDb's search and reshapes the hits. `PosterRoute` covers `/api/poster`.
- **Client state**:
  - `SearchPage`: saved lists, the API and address-bar query strings, `runSearch` with result paging, load-more and clearing filters.
  - `LandingPage`: the banner carousel's index state machine and the search bar's submit.

Shared modules:

- `Wrappers` holds `Option`.
- `Text` holds JavaScript's `trim`, `toLowerCase`, `split`, `join`, `String(n)` and `Number(s)`, and Python's `strip` and `int`, over strings of characters; only the ASCII letters A-Z change case.
- `CsvRows` is a CSV row as a column-to-cell map.
- `RawMovie` is the raw record the normalisers write.
- `OmdbApi` holds the OMDb request, reply and record types.

The outside world enters as parameters:

- The clock is a `now` argument.
- The OMDb service is a provider function from a request to a reply.
- `JSON.parse` and Python's `ast.literal_eval` are functions that give the parsed value, or `None` when parsing throws.
- A search request's outcome is an argument of `RunSearch`.
- Whether an API key is configured is a boolean.

Where a state changes in place in the source, the model keeps that form:

- the cache is a class with a map and a key-order field;
- the URL search parameters are a class;
- the search page state is a class;
- the carousel is a class;
- the poster merge sorts its entries in place in an array;
- the scripts' loops are methods with loop invariants, proved against recursive specification functions.

## Model

| member | source | states |
|---|---|---|
| Text.StripByFacts | scripts/build-movies-jsonl.ts:41 | `.trim()` leaves a slice of the text that neither starts nor ends with whitespace |
| Text.StripEmptyIff | scripts/build-movies-jsonl.ts:41-42 | trimming gives "" exactly when every character is whitespace |
| Text.StripIdempotent | scripts/build-movies-jsonl.ts:41 | trimming a trimmed text changes nothing |
| Text.TrimIsTrimmed | scripts/build-movies-jsonl.ts:41 | a trimmed text has no surrounding whitespace |
| Text.TrimBlankIff | scripts/build-movies-jsonl.ts:41-42 | `.trim()` gives "" exactly when the text is all whitespace, and otherwise a slice of it |
| Text.ToLower | scripts/build-movies-jsonl.ts:52 | `toLowerCase` keeps the length, lowers each character, and leaves no upper-case letter |
| Text.ToLowerIdempotent | scripts/build-movies-jsonl.ts:52 | lower-casing twice is lower-casing once |
| Text.ReplaceRunsChars | scripts/build-movies-jsonl.ts:52 | after replacing runs of a class by one character, only that character remains of the class |
| Text.ReplaceRunsNoDoubled | scripts/build-index-with-omdb.ts:52 | replacing runs of a class by a member of the class never leaves two in a row |
| Text.ReplaceRunsFixed | scripts/build-index-with-omdb.ts:52 | a text already in that shape is left unchanged, so the replacement is idempotent |
| Text.ReplaceRunsKeeps | scripts/build-movies-jsonl.ts:52 | the replacement keeps every character outside the class, in order |
| Text.SplitCount | scripts/normalize-kaggle.ts:29 | `split` on a character class gives one more piece than there are separators |
| Text.SplitPiecesHaveNoSeparator | scripts/normalize-kaggle.ts:29 | no piece holds a separator |
| Text.JoinSplit | scripts/normalize-kaggle.ts:29 | joining the pieces of a split on one character with that character gives the text back |
| Text.SplitJoin | scripts/build-movies-jsonl.ts:17 | splitting pieces joined by a separator gives the pieces back, when none holds a separator |
| Text.LeadingYearOfWritten | scripts/build-movies-jsonl.ts:21-25 | a date that starts with a four-digit year gives that year |
| Text.LeadingYearNeedsDigits | scripts/build-movies-jsonl.ts:23-24 | a date with a non-digit among its first four characters gives no year |
| Text.NatToStringRoundTrip | scripts/build-movies-jsonl.ts:48 | the decimal text of a number reads back as the number |
| Text.JsNumberIntToString | src/app/api/search/route.ts:62 | `Number(String(i))` is `i` |
| Text.JsNumberBlank | src/app/api/search/route.ts:62 | `Number` of a blank text is 0, and a negative number needs a leading '-' |
| Text.IntToStringInjective | src/app/api/search/route.ts:62 | different integers are written differently |
| Text.PyIntIntToString | scripts/credits_csv_to_jsonl.py:79 | `int(str(i))` is `i` |
| Text.PyIntBlank | scripts/credits_csv_to_jsonl.py:79 | `int` of a blank text fails, unlike `Number`, and a negative number needs a leading '-' |
| OmdbCache.YearText | src/lib/omdb.ts:22 | the year part of the key (`year ?? ""`) never contains `:`, so it cannot be confused with the separator |
| OmdbCache.YearTextInjective | src/lib/omdb.ts:22 | different year arguments (absent, a number, NaN) give different key suffixes |
| OmdbCache.YearOfTextInverse | src/lib/omdb.ts:22 | the year argument can be read back from its key suffix |
| OmdbCache.SplitAtLastSeparator | src/lib/omdb.ts:22 | a key splits uniquely into title part and year part at its last `::` |
| OmdbCache.AfterLastColonOf | src/lib/omdb.ts:22 | the text after the last `:` of a key is exactly its year suffix |
| OmdbCache.KeyAgreement | src/lib/omdb.ts:21-23 | two lookups share a cache key exactly when their trimmed, lower-cased titles agree and their years are the same |
| OmdbCache.Key | src/lib/omdb.ts:21-23 | the key is never empty and begins with the trimmed, lower-cased title, followed by more (the `::` and the year part) |
| OmdbCache.Without | src/lib/omdb.ts:37 | deleting a key from the insertion order removes exactly that key and nothing else |
| OmdbCache.WithoutDistinct | src/lib/omdb.ts:37 | deleting a key keeps the order duplicate-free and shrinks it by one exactly when the key was there |
| OmdbCache.InsertValid | src/lib/omdb.ts:36-38 | delete-then-set moves the key to the end, keeps order and entries in step, and grows the cache only for a new key |
| OmdbCache.DropFirstValid | src/lib/omdb.ts:39-42 | evicting the oldest key keeps order and entries in step |
| OmdbCache.Resolve | src/lib/omdb.ts:72-90 | the answer is the body exactly when there is an API key, the request returned and `Response` is "True"; otherwise null |
| OmdbCache.QueryFor | src/lib/omdb.ts:76-79 | the request carries the title as given, and a `y=` parameter exactly when the year is truthy; that parameter reads back as the year |
| OmdbCache.SetState | src/lib/omdb.ts:35-43 | after `setCache` the key holds the new entry and is the newest; every other key left holds its old entry |
| OmdbCache.SetStateFacts | src/lib/omdb.ts:35-43 | the order stays duplicate-free and in step with the entries; from at most `MAX` entries without the empty key it stays within `MAX`; overwriting a known key keeps the size |
| OmdbCache.Cache.constructor | src/lib/omdb.ts:18 | the cache starts empty and consistent |
| OmdbCache.Cache.GetFresh | src/lib/omdb.ts:25-33 | a missing key misses; an entry at most `TTL` old is returned untouched; an older one is deleted and misses |
| OmdbCache.Cache.SetCache | src/lib/omdb.ts:35-43 | the new order and entries are `SetState` of the old ones: the key is moved to the end with the new value and time; past `MAX` entries the oldest is evicted (unless it is the empty key), so the cache never exceeds `MAX` |
| OmdbCache.Cache.FetchOnce | src/lib/omdb.ts:62-91 | a fresh cached value (null included) is returned without a request and the cache is unchanged; otherwise one request is made (none without a key), and the new cache is `SetState` of the answer applied after the stale key was deleted, so the answer is cached under the key and returned; a cache within `MAX` entries and without the empty key stays so |
| OmdbCache.RepeatWithinTtl | src/lib/omdb.ts:15-91 | two calls for the same title and year within `TTL` make at most one request, and the second returns what the first did |
| BuildRawFromCredits.Prepend | scripts/build-raw-from-credits.ts:25-45 | characters read before a field boundary go to the front of the current field, and the field count is unchanged |
| BuildRawFromCredits.PrependEmpty | scripts/build-raw-from-credits.ts:25 | starting a field with nothing prepended leaves the fields as they are |
| BuildRawFromCredits.PrependTwice | scripts/build-raw-from-credits.ts:45 | prepending two pieces is prepending their concatenation |
| BuildRawFromCredits.FieldsFrom | scripts/build-raw-from-credits.ts:24-48 | the splitter always yields at least one field |
| BuildRawFromCredits.SplitCsv | scripts/build-raw-from-credits.ts:24-48 | the character loop of `splitCSV` yields exactly the fields of the recursive reading of the line |
| BuildRawFromCredits.FieldCount | scripts/build-raw-from-credits.ts:40-47 | the number of fields is one more than the number of commas outside quotes |
| BuildRawFromCredits.NoQuotesIsPlainSplit | scripts/build-raw-from-credits.ts:24-48 | on a line without quotes the splitter is a plain split at commas |
| BuildRawFromCredits.NoQuotesJoin | scripts/build-raw-from-credits.ts:24-48 | on a line without quotes, joining the fields with commas gives the line back |
| BuildRawFromCredits.ReadEscaped | scripts/build-raw-from-credits.ts:29-37 | inside quotes a doubled quote reads as one quote, and a single quote closes the field's quoted part |
| BuildRawFromCredits.OpenQuote | scripts/build-raw-from-credits.ts:35-37 | a quote outside quotes opens a quoted part and adds nothing to the field |
| BuildRawFromCredits.SplitEncodedRow | scripts/build-raw-from-credits.ts:24-48 | any fields written as quoted CSV with doubled quotes split back into the same fields (round trip) |
| BuildRawFromCredits.StripBom | scripts/build-raw-from-credits.ts:76 | a leading byte-order mark is removed and nothing else changes |
| BuildRawFromCredits.HeaderOf | scripts/build-raw-from-credits.ts:80 | the header has one trimmed name per field of the first line |
| BuildRawFromCredits.IdColumn | scripts/build-raw-from-credits.ts:70-82 | the id column is `id` exactly when `movie_id` is absent and `id` is present, and `movie_id` otherwise |
| BuildRawFromCredits.RowMapValues | scripts/build-raw-from-credits.ts:95-96 | the row has exactly the header names as keys, each name bound to the cell of its last occurrence |
| BuildRawFromCredits.FillRow | scripts/build-raw-from-credits.ts:95-96 | the filling loop builds exactly that row |
| BuildRawFromCredits.ConvertRow | scripts/build-raw-from-credits.ts:89-123 | a row of the wrong width is skipped, a blank id counts as "no id", a blank title as "no title", otherwise a record with the trimmed id and title is emitted, whose cast and crew are the trimmed cells, or "[]" when the header has no such column, and whose other fields are null or empty |
| BuildRawFromCredits.Outcomes | scripts/build-raw-from-credits.ts:75-127 | one outcome per data line |
| BuildRawFromCredits.Emitted | scripts/build-raw-from-credits.ts:125 | no more records than lines |
| BuildRawFromCredits.OutcomesPartition | scripts/build-raw-from-credits.ts:90-126 | written + skipped-no-id + skipped-no-title + wrong-width rows account for every data line |
| BuildRawFromCredits.ConvertRowWellFormed | scripts/build-raw-from-credits.ts:98-123 | every emitted record has a non-empty trimmed id and title |
| BuildRawFromCredits.EmittedRecords | scripts/build-raw-from-credits.ts:75-127 | every record written is well formed |
| BuildRawFromCredits.ConvertLine | scripts/build-raw-from-credits.ts:76-123 | one data line, BOM stripped, converted as `ConvertRow` says |
| BuildRawFromCredits.Convert | scripts/build-raw-from-credits.ts:50-141 | the first line is the header; the records written and both skip counters are those of the per-line outcomes; `wrote` counts the records written |
| BuildRawFromCredits.ConvertRows | scripts/build-raw-from-credits.ts:75-127 | the loop over data lines emits exactly the outcomes' records and counts |
| BuildIndex.NumberOf | scripts/build-index.ts:46-76 | `Number(v)` of a numeric field is the number, of a text field the text read as a JavaScript number (NaN for anything else) |
| BuildIndex.FirstFour | scripts/build-index.ts:49 | `slice(0, 4)` is a prefix of at most four characters |
| BuildIndex.YearOf | scripts/build-index.ts:44-51 | a given `year` decides the year (NaN gives none); only without it are the first four characters of `release_date` read |
| BuildIndex.NonNumericYearDoesNotFallBack | scripts/build-index.ts:45-48 | a non-numeric `year` text leaves the year unset and `release_date` is not consulted |
| BuildIndex.SlugShape | scripts/build-index.ts:57 | the slug holds only a-z, 0-9 and '-', never two '-' in a row and no '-' at either end |
| BuildIndex.SlugKeepsLettersAndDigits | scripts/build-index.ts:57 | the slug keeps every letter and digit of the lower-cased title, in order |
| BuildIndex.IdOf | scripts/build-index.ts:54-58 | the id is a non-empty `id`, else a non-empty `imdb_id`, else the slug followed by "-" and the year exactly when the year is set and non-zero |
| BuildIndex.IdYearReadsBack | scripts/build-index.ts:54-58 | with no id or imdb_id and a non-zero year, the id continues the slug with '-' and a text that reads back as that year |
| BuildIndex.ArrayGenres | scripts/build-index.ts:62-63 | falsy array entries are dropped, so there are at most as many genres as entries |
| BuildIndex.GenresOf | scripts/build-index.ts:61-71 | no genres field gives none; an array is filtered and trimmed; a string is split at any of bullet, comma, slash, bar, semicolon and dash, trimmed and blanks dropped |
| BuildIndex.ArrayGenresTrimmed | scripts/build-index.ts:63 | every genre taken from an array is trimmed |
| BuildIndex.GenreTextPieces | scripts/build-index.ts:65-68 | every genre split from a string is non-empty, trimmed and free of separators |
| BuildIndex.HyphenatedGenreSplits | scripts/build-index.ts:66 | '-' is a separator, so "A-B" becomes two genres |
| BuildIndex.SciFiIsTwoGenres | scripts/build-index.ts:66 | the genre text "Sci-Fi" becomes the two genres "Sci" and "Fi" |
| BuildIndex.RuntimeLabelRoundTrip | scripts/build-index.ts:85-88 | the "Xh Ym" label of a positive running time reads back as that number of minutes |
| BuildIndex.RuntimeLabelExamples | scripts/build-index.ts:86-88 | 45 minutes is "45m" and 90 minutes is "1h 30m" |
| BuildIndex.MetaParts | scripts/build-index.ts:83-89 | the joined genres come first when there are genres, the running-time label last when the running time is positive, nothing else |
| BuildIndex.MetaOf | scripts/build-index.ts:81-91 | a non-empty given `meta` is kept; otherwise the parts joined with " • ", or the given value when there are no parts |
| BuildIndex.Normalize | scripts/build-index.ts:39-104 | a record without a non-blank title is dropped; otherwise the record has the trimmed title, the year of `YearOf`, the id of `IdOf` for that title and year, the genres of `GenresOf`, the meta of `MetaOf` for those genres and the runtime, and the poster exactly when it is non-empty |
| BuildIndex.Normalized | scripts/build-index.ts:121-128 | at most one record comes from each line |
| BuildIndex.IdsMembers | scripts/build-index.ts:112-130 | the set of ids seen is exactly the ids of the items |
| BuildIndex.FirstIndex | scripts/build-index.ts:129-131 | the position of an id's first occurrence |
| BuildIndex.FirstIndexIsFirst | scripts/build-index.ts:129-131 | no earlier item has that id |
| BuildIndex.DedupIds | scripts/build-index.ts:129-131 | de-duplication loses no id |
| BuildIndex.DedupDistinct | scripts/build-index.ts:129-131 | after de-duplication no id occurs twice |
| BuildIndex.DedupKeepsFirst | scripts/build-index.ts:129-131 | the item kept for each id is its first occurrence |
| BuildIndex.DedupInOrder | scripts/build-index.ts:129-131 | kept items are in the order of their first occurrences |
| BuildIndex.ReadLine | scripts/build-index.ts:123-128 | a blank line or one that does not parse gives nothing; otherwise the normalized record |
| BuildIndex.BuildItems | scripts/build-index.ts:112-138 | the loop produces the normalized records with later duplicates of an id dropped: every id once, in first-seen order |
| BuildIndexWithOmdb.ToYearOfDate | scripts/build-index-with-omdb.ts:42-45 | a release date starting with four digits gives that year; a missing or empty date gives none |
| BuildIndexWithOmdb.ToYear | scripts/build-index-with-omdb.ts:42-45 | a year is read only from a non-empty release date, and is below 10000 |
| BuildIndexWithOmdb.NormTitleShape | scripts/build-index-with-omdb.ts:47-54 | a normalized title has no capital letter, only single spaces as whitespace, and no whitespace at either end |
| BuildIndexWithOmdb.NormTitleIdempotent | scripts/build-index-with-omdb.ts:47-54 | normalizing twice is normalizing once |
| BuildIndexWithOmdb.NormTitleIgnoresCase | scripts/build-index-with-omdb.ts:49 | titles that differ only in letter case normalize alike |
| BuildIndexWithOmdb.CacheKeySeparatesYears | scripts/build-index-with-omdb.ts:129 | the same title with two different non-zero years gets two different cache keys |
| BuildIndexWithOmdb.CacheKeySharedAcrossCase | scripts/build-index-with-omdb.ts:129 | titles that differ only in case share a cache entry |
| BuildIndexWithOmdb.Queries | scripts/build-index-with-omdb.ts:86-91 | with a non-zero year the title-and-year request is tried before the title-only one; otherwise only title |
| BuildIndexWithOmdb.FirstTrueFound | scripts/build-index-with-omdb.ts:93-98 | a record found is one whose `Response` is "True", returned by an ok reply to one of the requests |
| BuildIndexWithOmdb.FirstTrueNotFound | scripts/build-index-with-omdb.ts:93-99 | nothing is found exactly when every request gets a non-ok reply or a reply whose `Response` is not "True" |
| BuildIndexWithOmdb.FirstTrue | scripts/build-index-with-omdb.ts:93-99 | a found record says `Response` "True"; with no request to make nothing can throw |
| BuildIndexWithOmdb.FetchByTitle | scripts/build-index-with-omdb.ts:84-100 | the request loop returns the first "True" answer in request order, nothing when there is none, and stops the run when a request throws |
| BuildIndexWithOmdb.IterateRawFacts | scripts/build-index-with-omdb.ts:70-82 | at most one record per line, each with a non-empty title |
| BuildIndexWithOmdb.IterateRaw | scripts/build-index-with-omdb.ts:70-82 | every record yielded is what one of the lines parses to |
| BuildIndexWithOmdb.PosterlessBound | scripts/build-index-with-omdb.ts:128 | the records needing a poster are among those read |
| BuildIndexWithOmdb.Output | scripts/build-index-with-omdb.ts:119-157 | the output keeps the record's id and year; its poster, or its imdb_id, differs from the raw record's only when the cache entry has a usable poster, and is then usable, or set |
| BuildIndexWithOmdb.SettleFacts | scripts/build-index-with-omdb.ts:141-157 | settling a record appends its output and counts exactly one hit or one miss |
| BuildIndexWithOmdb.StepOutput | scripts/build-index-with-omdb.ts:117-157 | each record read is written once, keeping id, title, year and genres; a record without a poster takes the poster of its cached entry when that is usable, and then the entry's imdbID too when set, otherwise keeps its own poster and imdb_id; its key is cached afterwards exactly when it is not a name the cache object inherits; hits plus misses grow by one exactly for a record without a poster |
| BuildIndexWithOmdb.StepCache | scripts/build-index-with-omdb.ts:128-139 | a lookup happens only for a posterless record whose key is neither cached nor inherited from `Object.prototype`; it adds that key and changes no cached entry; no inherited name is ever added |
| BuildIndexWithOmdb.InheritedKeyIsMiss | scripts/build-index-with-omdb.ts:128-147 | a posterless record whose key is an inherited name such as "constructor" reads a truthy entry: nothing is asked or cached, it keeps its own poster and imdb_id, and a miss is counted |
| BuildIndexWithOmdb.Step | scripts/build-index-with-omdb.ts:117-157 | a record stops the run exactly when it has no poster, its key is neither cached nor inherited, and the OMDb lookup throws |
| BuildIndexWithOmdb.RunOutput | scripts/build-index-with-omdb.ts:117-158 | the output has one record per input record, in order, each written as above against the final cache, whose entries for earlier keys never change |
| BuildIndexWithOmdb.WrittenPoster | scripts/build-index-with-omdb.ts:124-143 | a written record has its own poster, or, having none, a usable one from OMDb; its imdb_id changes only together with the poster, and only to a set value |
| BuildIndexWithOmdb.RunCounts | scripts/build-index-with-omdb.ts:112-147 | hits plus misses equal the number of records without a poster of their own |
| BuildIndexWithOmdb.RunCache | scripts/build-index-with-omdb.ts:128-139 | each key is looked up at most once per run, cached entries never change, no inherited name is added, and a posterless record's key ends up cached exactly when it is not an inherited name missing from the starting cache |
| BuildIndexWithOmdb.Run | scripts/build-index-with-omdb.ts:117-158 | a run over records that all have posters of their own never stops early |
| BuildIndexWithOmdb.Enrich | scripts/build-index-with-omdb.ts:117-157 | the loop body performs exactly one `Step` |
| BuildIndexWithOmdb.Build | scripts/build-index-with-omdb.ts:102-168 | the whole loop computes `Run` over the records read; without an abort, `total` is the number read and hits plus misses never exceed it |
| FetchPosters.FirstQuery | scripts/fetch-posters.mjs:26-28 | the first request sends the title and always a `y=` parameter: the year's decimal text, which reads back as the year, or "" without a year |
| FetchPosters.SecondQuery | scripts/fetch-posters.mjs:35 | the fallback request sends the same title and no year |
| FetchPosters.Checked | scripts/fetch-posters.mjs:29-31 | a reply gives its body exactly when it is ok; a non-ok reply or a failed request throws |
| FetchPosters.ByTitleYear | scripts/fetch-posters.mjs:24-39 | a first answer that throws or says "True" is final; otherwise the answer is that of the title-only request |
| FetchPosters.RetryOnlyAfterMiss | scripts/fetch-posters.mjs:24-39 | the title-only request can matter only after the first request was answered ok without "True" |
| FetchPosters.NoRetryAfterTrueOrError | scripts/fetch-posters.mjs:29-32 | a first request that throws (non-ok) or answers "True" decides the answer, and the title alone is never asked |
| FetchPosters.UpdatedYear | scripts/fetch-posters.mjs:90 | as the expression parses, `(m.year ?? data.Year) ? Number(data.Year) : undefined`: a non-zero own year is replaced by OMDb's, a zero own year gives none, and without an own year OMDb's non-empty year is read |
| FetchPosters.OmdbYearWins | scripts/fetch-posters.mjs:90 | a record with its own non-zero year takes OMDb's year instead |
| FetchPosters.Updated | scripts/fetch-posters.mjs:84-95 | the updated entry keeps id and title, and has OMDb's poster exactly when that is non-empty and not "N/A" |
| FetchPosters.Decide | scripts/fetch-posters.mjs:73-111 | a record whose previous entry has a usable poster is skipped; it is replaced exactly when the lookup answers "True"; every other case is a failure |
| FetchPosters.PutValid | scripts/fetch-posters.mjs:96 | `byId.set` stores the entry under its id, keeps a known id's place and appends a new one, and leaves other ids alone |
| FetchPosters.Put | scripts/fetch-posters.mjs:96 | the id maps to the new entry and every other id keeps its entry; the order keeps its prefix and grows, by that id, only when the id is new |
| FetchPosters.FromListValid | scripts/fetch-posters.mjs:66 | the map built from the existing index is consistent |
| FetchPosters.FromList | scripts/fetch-posters.mjs:66 | every id of the existing index is a key, and the last entry listed is the one stored under its id |
| FetchPosters.Values | scripts/fetch-posters.mjs:118 | `byId.values()` lists one entry per key in insertion order |
| FetchPosters.ValuesDistinctIds | scripts/fetch-posters.mjs:118 | the merged index holds no id twice |
| FetchPosters.StepEffect | scripts/fetch-posters.mjs:72-115 | a skipped or failed record leaves the map as it was, a fetched one changes only its own id, and exactly one counter grows |
| FetchPosters.Step | scripts/fetch-posters.mjs:72-115 | one raw record adds at most its own id to the map, drops no id, and no counter decreases |
| FetchPosters.Run | scripts/fetch-posters.mjs:72-115 | the loop drops no id, every id it adds is the id of some raw record, and no counter decreases |
| FetchPosters.RunCounts | scripts/fetch-posters.mjs:68-115 | fetched + skipped + failures equals the number of raw records |
| FetchPosters.RunKeepsPosters | scripts/fetch-posters.mjs:75-79 | an entry that already has a usable poster is never replaced |
| FetchPosters.LexLeTotal | scripts/fetch-posters.mjs:119 | the title order compares any two titles |
| FetchPosters.Insert | scripts/fetch-posters.mjs:119 | inserting adds exactly one entry |
| FetchPosters.Sort | scripts/fetch-posters.mjs:119 | sorting keeps the length |
| FetchPosters.InsertSorted | scripts/fetch-posters.mjs:119 | inserting into a title-sorted list keeps it sorted |
| FetchPosters.InsertPermutes | scripts/fetch-posters.mjs:119 | inserting adds exactly the new entry to the multiset |
| FetchPosters.SortFacts | scripts/fetch-posters.mjs:119 | the sorted index is ordered by title and a permutation of the merged entries |
| FetchPosters.InsertDistinctIds | scripts/fetch-posters.mjs:119 | inserting an entry with a new id keeps ids distinct |
| FetchPosters.SortDistinctIds | scripts/fetch-posters.mjs:119 | sorting keeps ids distinct |
| FetchPosters.InsertAt | scripts/fetch-posters.mjs:119 | the insertion point is after every entry that does not sort after the new one, so equal titles keep their order |
| FetchPosters.ShiftAfter | scripts/fetch-posters.mjs:119 | the inner loop shifts right exactly the entries sorting after the new one |
| FetchPosters.InsertLast | scripts/fetch-posters.mjs:119 | one insertion step in the array equals `Insert` on its sorted prefix |
| FetchPosters.SortInPlace | scripts/fetch-posters.mjs:119 | the in-place sort leaves the array equal to `Sort` of its old contents |
| FetchPosters.Visit | scripts/fetch-posters.mjs:73-111 | one raw record: skipped when its entry has a usable poster, replaced on a "True" answer, otherwise counted as a failure, exactly as `Step` says; the map stays well formed |
| FetchPosters.Merge | scripts/fetch-posters.mjs:61-115 | the loop over raw records computes `Run` from the map of the existing index |
| FetchPosters.BuildIndex | scripts/fetch-posters.mjs:61-126 | the index written is the merged entries sorted by title, no id twice, and every raw record is counted once |
| MoviesJsonl.FirstFilled | scripts/build-movies-jsonl.ts:40-41 | a non-empty result is the cell of one of the keys in the or-chain |
| MoviesJsonl.FirstFilledIs | scripts/build-movies-jsonl.ts:40-41 | the chain yields the first key whose cell is present and non-empty |
| MoviesJsonl.FirstFilledEmpty | scripts/build-movies-jsonl.ts:40-41 | the chain falls through to "" exactly when every cell is absent or empty |
| MoviesJsonl.Names | scripts/build-movies-jsonl.ts:14 | mapping to `name` and dropping falsy names never lengthens the list |
| MoviesJsonl.NamesNonEmpty | scripts/build-movies-jsonl.ts:14 | no genre name kept from the JSON array is empty |
| MoviesJsonl.SafeParseGenres | scripts/build-movies-jsonl.ts:8-9 | a missing or empty genres cell gives no genres |
| MoviesJsonl.GenresShape | scripts/build-movies-jsonl.ts:12-18 | every genre is non-empty; when the cell is not JSON, each genre is trimmed and holds no bar, semicolon or comma |
| MoviesJsonl.PlainListRoundTrip | scripts/build-movies-jsonl.ts:15-17 | trimmed, separator-free genres joined by a bar (and not JSON) read back as the same list |
| MoviesJsonl.YearFromDate | scripts/build-movies-jsonl.ts:21-25 | a year is found only in a non-empty date, and it is the number of the date's four leading digits |
| MoviesJsonl.YearOf | scripts/build-movies-jsonl.ts:54 | the year written is never 0 (the trailing `or undefined`) |
| MoviesJsonl.DateYearWins | scripts/build-movies-jsonl.ts:54 | a date beginning with a four-digit year gives that year, whatever `release_year` holds |
| MoviesJsonl.ZeroDateHidesReleaseYear | scripts/build-movies-jsonl.ts:54 | a date beginning "0000" yields 0, which `??` keeps, so no year is written even when `release_year` has one |
| MoviesJsonl.ReleaseYearFallback | scripts/build-movies-jsonl.ts:54 | without a leading year in the date, the year is `Number(release_year)` unless that is 0 or NaN; no `release_year` cell gives none |
| MoviesJsonl.ClockLabel | scripts/build-movies-jsonl.ts:48 | the running-time label always writes the hour part, so is at least five characters |
| MoviesJsonl.ClockLabelRoundTrip | scripts/build-movies-jsonl.ts:48 | reading the hours and minutes back out of the label gives the running time in minutes |
| MoviesJsonl.RuntimeOf | scripts/build-movies-jsonl.ts:45 | a running time of 0 (or NaN) counts as none |
| MoviesJsonl.Present | scripts/build-movies-jsonl.ts:49 | `.filter(Boolean)` keeps no empty piece |
| MoviesJsonl.MetaOf | scripts/build-movies-jsonl.ts:55 | the meta line, when written, is non-empty |
| MoviesJsonl.MetaStarts | scripts/build-movies-jsonl.ts:46-55 | with genres, meta is present and starts with the genres joined by ", " |
| MoviesJsonl.MetaEnds | scripts/build-movies-jsonl.ts:46-55 | with a positive running time, meta is present and ends with its label |
| MoviesJsonl.MetaFacts | scripts/build-movies-jsonl.ts:46-55 | meta is absent exactly when there are no genres and no positive running time; it starts with the genres joined by ", " and ends with a label that reads back as the running time |
| MoviesJsonl.TitleIdShape | scripts/build-movies-jsonl.ts:52 | the id derived from a title is empty only for an empty title, holds no whitespace, and keeps the lower-cased title's other characters in order |
| MoviesJsonl.PosterOf | scripts/build-movies-jsonl.ts:56-58 | the poster is the `poster_path` cell exactly when that starts with "/" |
| MoviesJsonl.MapRow | scripts/build-movies-jsonl.ts:41-42 | a row is skipped exactly when its trimmed title is empty |
| MoviesJsonl.IdShape | scripts/build-movies-jsonl.ts:40-52 | for a non-empty title the id is non-empty and has no surrounding whitespace |
| MoviesJsonl.MapRowShape | scripts/build-movies-jsonl.ts:40-59 | a written record has a non-empty trimmed title, a non-empty trimmed id and no year 0 |
| MoviesJsonl.BlankIdCellIgnoresMovieId | scripts/build-movies-jsonl.ts:40-52 | an `id` cell of only spaces stops the or-chain, so the id is derived from the title even when `movie_id` is filled |
| MoviesJsonl.MapRowMeta | scripts/build-movies-jsonl.ts:44-55 | a written record has no meta exactly when it has no genres and no positive running time |
| MoviesJsonl.ConvertedCount | scripts/build-movies-jsonl.ts:39-62 | one line is written per row with a non-blank title |
| MoviesJsonl.ConvertedTitled | scripts/build-movies-jsonl.ts:39-62 | every written record has a non-empty title |
| MoviesJsonl.Convert | scripts/build-movies-jsonl.ts:37-62 | the loop pushes, in row order, the record of every titled row, and so writes as many lines as there are titled rows |
| NormalizeKaggle.FieldIsFirstPresent | scripts/normalize-kaggle.ts:20-23 | `field` returns the cell of the first candidate column the row has, even an empty one |
| NormalizeKaggle.FieldAbsent | scripts/normalize-kaggle.ts:20-23 | a row with none of the candidate columns gives "" |
| NormalizeKaggle.FieldOf | scripts/normalize-kaggle.ts:20-23 | the loop over the candidates returns what `field` specifies |
| NormalizeKaggle.FirstDigitRun | scripts/normalize-kaggle.ts:28 | a match of `\d{4}` is four digits |
| NormalizeKaggle.FirstDigitRunIsLeftmost | scripts/normalize-kaggle.ts:28 | the match is the leftmost run of four digits |
| NormalizeKaggle.FirstDigitRunNone | scripts/normalize-kaggle.ts:28 | there is no match exactly when no position starts four digits |
| NormalizeKaggle.YearAfterText | scripts/normalize-kaggle.ts:27-37 | a four-digit year after digit-free text is the match, and reads back as that year |
| NormalizeKaggle.YearOf | scripts/normalize-kaggle.ts:27-37 | the year, when there is one, has at most four digits |
| NormalizeKaggle.CleanGenres | scripts/normalize-kaggle.ts:29 | every genre is non-empty, trimmed, and holds no bar or comma |
| NormalizeKaggle.CleanCast | scripts/normalize-kaggle.ts:30 | the cast is the first (at most) eight names of the split list, and exactly eight when the list has that many |
| NormalizeKaggle.CleanCastPieces | scripts/normalize-kaggle.ts:30 | every cast name is non-empty, trimmed, and holds no bar or comma |
| NormalizeKaggle.PiecesShape | scripts/normalize-kaggle.ts:29-30 | splitting on bar or comma, trimming and dropping empties leaves only such pieces |
| NormalizeKaggle.DirectorIsFirstName | scripts/normalize-kaggle.ts:31 | the director is the trimmed text before the first bar or comma |
| NormalizeKaggle.DirectorSingleName | scripts/normalize-kaggle.ts:31 | a director column without separators gives the whole column, trimmed |
| NormalizeKaggle.CleanId | scripts/normalize-kaggle.ts:35 | the id is never empty; an empty `id` cell stops `field`, so the row gets `m-<idx>` even when it has an `imdb_id` |
| NormalizeKaggle.CleanWellFormed | scripts/normalize-kaggle.ts:25-44 | a cleaned row with a title has a non-empty trimmed title, a non-empty id and no keywords |
| NormalizeKaggle.WrittenShape | scripts/normalize-kaggle.ts:49-52 | every record written is well formed in that sense |
| NormalizeKaggle.WrittenCount | scripts/normalize-kaggle.ts:49-52 | one line is written per row with a title, so no more lines than rows |
| NormalizeKaggle.Normalize | scripts/normalize-kaggle.ts:46-53 | the data handler, run over the rows, writes the titled rows cleaned with their row numbers, in order, and leaves the counter at the number of rows |
| NormalizeCredits.SafeJson | scripts/normalize-credits.ts:17-20 | the result is the fallback, or what a non-empty cell parses to |
| NormalizeCredits.SafeJsonParsed | scripts/normalize-credits.ts:17-20 | a non-empty cell gives its parse, or the fallback when parsing throws |
| NormalizeCredits.CastNames | scripts/normalize-credits.ts:29 | trimming names and dropping empty ones never lengthens the list |
| NormalizeCredits.CastNamesShape | scripts/normalize-credits.ts:29 | one name per entry with a non-blank name; each is non-empty, trimmed, and is the trimmed name of some entry |
| NormalizeCredits.CastNamesAllNamed | scripts/normalize-credits.ts:29 | when every entry has a non-blank name, the names are the entries' trimmed names, in order |
| NormalizeCredits.CastNamesSkipsBlank | scripts/normalize-credits.ts:29 | an entry with a missing or blank name adds nothing |
| NormalizeCredits.CastNamesAppend | scripts/normalize-credits.ts:29 | the names of two lists in a row are the first list's names followed by the second's |
| NormalizeCredits.CastOfShape | scripts/normalize-credits.ts:29 | the cast is the first min(8, named entries) names |
| NormalizeCredits.FindDirector | scripts/normalize-credits.ts:30 | `find` returns the first crew entry whose lower-cased job is "director" |
| NormalizeCredits.FindDirectorNone | scripts/normalize-credits.ts:30 | `find` finds nothing exactly when no entry has that job |
| NormalizeCredits.DirectorOf | scripts/normalize-credits.ts:30 | a non-empty director is the name of a crew entry with the director job |
| NormalizeCredits.DirectorIsFirst | scripts/normalize-credits.ts:30 | the director is the name of the first director entry, "" when that entry has no name |
| NormalizeCredits.DirectorJobIgnoresCase | scripts/normalize-credits.ts:30 | "Director" and "DIRECTOR" match; "Co-Director" and a missing job do not |
| NormalizeCredits.IdChoice | scripts/normalize-credits.ts:33 | the id is `movie_id` when present, else `id`, else `m-<idx>`; it is empty only when the chosen cell is empty, since `??` does not skip "" |
| NormalizeCredits.NormalizedWellFormed | scripts/normalize-credits.ts:26-41 | a titled record has a trimmed title, no year, genres, keywords or overview, and at most eight non-empty trimmed cast names |
| NormalizeCredits.UnparsableCells | scripts/normalize-credits.ts:17-30 | missing or unparsable cast and crew cells give no cast and no director |
| NormalizeCredits.WrittenShape | scripts/normalize-credits.ts:43 | one well-formed line per row with a title, so no more lines than rows |
| NormalizeCredits.Normalize | scripts/normalize-credits.ts:22-45 | the data handler, run over the rows, writes the titled rows normalized with their row numbers, in order, and counts every row |
| CreditsToJsonl.CollapseQuotes | scripts/credits_csv_to_jsonl.py:20 | replacing doubled quotes never lengthens the text |
| CreditsToJsonl.CollapseQuotesKeeps | scripts/credits_csv_to_jsonl.py:20 | only quote characters are removed: the other characters stay, in order |
| CreditsToJsonl.CollapseQuotesUnchanged | scripts/credits_csv_to_jsonl.py:20 | text without a doubled quote is unchanged |
| CreditsToJsonl.CollapseQuotedName | scripts/credits_csv_to_jsonl.py:18-20 | a name wrapped in doubled quotes comes out wrapped in single double quotes |
| CreditsToJsonl.ParsePylist | scripts/credits_csv_to_jsonl.py:8-30 | a missing or blank cell gives `[]`; any non-list result comes from the second `literal_eval` of a string literal |
| CreditsToJsonl.ParsePylistList | scripts/credits_csv_to_jsonl.py:21-24 | a cell that evaluates to a list gives that list |
| CreditsToJsonl.ParsePylistFallback | scripts/credits_csv_to_jsonl.py:21-30 | a cell that raises, or evaluates to neither a list nor a string, gives `[]` |
| CreditsToJsonl.FirstNonEmpty | scripts/credits_csv_to_jsonl.py:32-36 | a result is the first value that is present and not blank after stripping |
| CreditsToJsonl.FirstNonEmptyNone | scripts/credits_csv_to_jsonl.py:32-36 | there is no result exactly when every value is missing or blank |
| CreditsToJsonl.CoerceId | scripts/credits_csv_to_jsonl.py:77-81 | no raw id gives none; an id that `int()` accepts gives that integer; any other id gives its stripped text |
| CreditsToJsonl.CoerceIdOfNumber | scripts/credits_csv_to_jsonl.py:78-79 | an id written as a decimal numeral becomes that integer |
| CreditsToJsonl.FirstHeader | scripts/credits_csv_to_jsonl.py:55-57 | `next(...)` finds the first header with the wanted lower-cased name, and none exactly when no header has it |
| CreditsToJsonl.KeysOfShape | scripts/credits_csv_to_jsonl.py:55-63 | the chosen cast and crew columns are headers of the file; a column named cast is used when there is one; otherwise the first two columns stand in |
| CreditsToJsonl.CastNames | scripts/credits_csv_to_jsonl.py:87 | keeping the truthy names of dict entries never lengthens the list |
| CreditsToJsonl.CastNamesShape | scripts/credits_csv_to_jsonl.py:87 | every kept name is truthy and is the `name` of some dict entry |
| CreditsToJsonl.CastNamesAllNamed | scripts/credits_csv_to_jsonl.py:87 | when every entry is a dict with a truthy name, the names are those, in order |
| CreditsToJsonl.CastNamesOne | scripts/credits_csv_to_jsonl.py:87 | one entry gives its name exactly when it is a dict with a truthy name, and nothing otherwise |
| CreditsToJsonl.CastNamesAppend | scripts/credits_csv_to_jsonl.py:87 | the names of two lists in a row are the first list's names followed by the second's, so every kept name appears once and in entry order |
| CreditsToJsonl.Credited | scripts/credits_csv_to_jsonl.py:91-96 | at most one (job, name) pair per crew entry |
| CreditsToJsonl.GroupShape | scripts/credits_csv_to_jsonl.py:90-97 | `setdefault(...).append` gives each job once, in first-seen order; a job is a key exactly when some pair has it, and its names are that job's names in order |
| CreditsToJsonl.NamesForNone | scripts/credits_csv_to_jsonl.py:90-97 | a job no pair has collects no names |
| CreditsToJsonl.GroupTotal | scripts/credits_csv_to_jsonl.py:90-97 | the grouped lists hold exactly as many names as there were credited pairs: none lost, none duplicated |
| CreditsToJsonl.CrewByJob | scripts/credits_csv_to_jsonl.py:90-97 | the loop over the crew builds the grouping specified by `Group` |
| CreditsToJsonl.OtherCells | scripts/credits_csv_to_jsonl.py:73 | the cells of the columns other than cast and crew, at most one per column |
| CreditsToJsonl.LineIdFromIdColumn | scripts/credits_csv_to_jsonl.py:57-81 | a filled id column decides the id, coerced, whatever the other columns hold |
| CreditsToJsonl.TopCastShape | scripts/credits_csv_to_jsonl.py:88 | the top cast is the first (at most) ten cast names, and all of them when there are ten or fewer |
| CreditsToJsonl.Lines | scripts/credits_csv_to_jsonl.py:65-109 | one line per row, whatever the row holds |
| CreditsToJsonl.LinesAt | scripts/credits_csv_to_jsonl.py:65-109 | line k is the line of row k |
| CreditsToJsonl.ConvertRows | scripts/credits_csv_to_jsonl.py:47-109 | the loop writes the lines of the rows in order and counts every one of them |
| CreditsToJsonl.RowLine | scripts/credits_csv_to_jsonl.py:66-106 | the loop body builds the line that `LineOf` specifies |
| RawMovie.Take | scripts/normalize-kaggle.ts:30 | `.slice(0, n)` keeps the first min(n, length) elements |
| RawMovie.RowIdInjective | scripts/normalize-kaggle.ts:35 | different row numbers give different fallback ids `m-<idx>` |
| SearchPage.AddToListBlank | src/app/search/page.tsx:166 | a blank list name changes no list and does not throw |
| SearchPage.AddToListShape | src/app/search/page.tsx:167-171 | the updater throws exactly when the trimmed name is not a list but a name inherited from `Object.prototype` ("constructor", "toString", ...); otherwise the trimmed name becomes a key, other lists are unchanged, the list keeps its movies and gains the movie at the front only when no movie with its id is there, and afterwards the list holds the id |
| SearchPage.AddToListIdempotent | src/app/search/page.tsx:165-175 | adding the same movie to the same list twice is adding it once |
| SearchPage.AddToListKeepsUniqueIds | src/app/search/page.tsx:169-171 | when no list holds an id twice, none does after a successful add |
| SearchPage.LookupFinds | src/app/search/page.tsx:127-130 | `get` finds nothing exactly when no pair has the name, else the value of the first pair with it |
| SearchPage.LookupAppend | src/app/search/page.tsx:255-256 | a name in the first part of a query string is found there, otherwise in the second |
| SearchPage.Without | src/app/search/page.tsx:233 | deleting a name never lengthens the query string |
| SearchPage.WithoutLookup | src/app/search/page.tsx:233 | after `delete(k)` the name is gone and every other name reads as before |
| SearchPage.SetParamLookup | src/app/search/page.tsx:232 | after `set(k, v)` the name reads `v` and every other name reads as before |
| SearchPage.SetParamOthers | src/app/search/page.tsx:232-233 | `set` then `delete` of a name is `delete` of it: `set` touches no other pair |
| SearchPage.WithoutIdempotent | src/app/search/page.tsx:233 | deleting a name twice is deleting it once |
| SearchPage.SetParamFresh | src/app/search/page.tsx:251-256 | setting a name not yet present appends it at the end |
| SearchPage.SearchParams.Set | src/app/search/page.tsx:232 | `searchParams.set` replaces the pairs by the `SetParam` of the old ones |
| SearchPage.SearchParams.Delete | src/app/search/page.tsx:233 | `searchParams.delete` removes the name's pairs |
| SearchPage.SearchParams.SetOrDelete | src/app/search/page.tsx:231-234 | afterwards the name reads the value when that is non-blank, else nothing; every other name reads as before |
| SearchPage.BuildApiUrl | src/app/search/page.tsx:242-258 | the query string built step by step is `ApiQuery(args)` |
| SearchPage.SetIf | src/app/search/page.tsx:251-254 | a conditional `set` of a fresh name appends the pair exactly when the condition holds |
| SearchPage.QueryNames | src/app/search/page.tsx:250-256 | the API query has only the names q, genre, sort, order, limit and offset, each at most once |
| SearchPage.QueryLookup | src/app/search/page.tsx:250-256 | every name of the API query reads as the conditional `set` calls decide, and no other name is present |
| SearchPage.QueryLookups | src/app/search/page.tsx:251-256 | q, genre and order are sent when non-empty; sort only when set and not "relevance"; limit defaults to 30 and offset to 0 |
| SearchPage.SetOrDeleteLookup | src/app/search/page.tsx:231-234 | the name reads the value when non-blank, else nothing; other names are unchanged |
| SearchPage.SyncedUrlSteps | src/app/search/page.tsx:231-238 | the synced address bar is the old one with `q`, `genre`, `sort` and `order` each set or deleted, in that order |
| SearchPage.SyncedLookups | src/app/search/page.tsx:229-240 | after `syncUrl` each of q, genre, sort and order is in the address bar exactly when its value is non-blank, and every other parameter is kept |
| SearchPage.Merged | src/app/search/page.tsx:295 | a reset replaces the results by the new items; otherwise the new items are appended after the old results |
| SearchPage.MergedPages | src/app/search/page.tsx:295-338 | a first page followed by a loaded-more page gives the two pages in order, whatever was shown before |
| SearchPage.FailureMessage | src/app/search/page.tsx:287-304 | an abort sets no error; an HTTP failure shows "HTTP <status>"; a thrown non-Error shows "Something went wrong." |
| SearchPage.SearchState.constructor | src/app/search/page.tsx:124-149 | the filters come from the address bar: q and genre trimmed, sort defaulting to "relevance", order to "asc"; no results, no error, not loading, no lists |
| SearchPage.SearchState.AddToList | src/app/search/page.tsx:165-175 | reports a throw exactly when `AddedToList` fails, and then leaves the lists as they were; otherwise the lists become `AddedToList` of the old lists; no other field changes |
| SearchPage.SearchState.SyncUrl | src/app/search/page.tsx:229-240 | the address bar becomes `SyncedUrl` of the old one, with absent arguments standing for the current filters; no other state changes |
| SearchPage.SearchState.RunSearch | src/app/search/page.tsx:260-313 | the request is `ApiQuery` of the trimmed query, page size 30 and the offset; on success the results are merged, total, next offset and fallback flag taken from the reply, the error cleared and the address bar synced; on failure the error is the failure message, and a reset with a message empties the results; loading ends false; filters and lists are untouched |
| SearchPage.SearchState.Succeed | src/app/search/page.tsx:289-300 | the reply's items are merged in, total defaults to the number of items, and the address bar is synced |
| SearchPage.SearchState.Fail | src/app/search/page.tsx:301-309 | a message becomes the error, and on a reset clears results, total and next offset; an abort changes nothing |
| SearchPage.SearchState.Submit | src/app/search/page.tsx:315-322 | submitting requests the first page for the trimmed query and current filters; on success it shows exactly that page with its total, next offset and fallback flag, clears the error and syncs the address; on an HTTP or network failure it shows the message and clears results, total and next offset; an abort clears the error and leaves results, total, next offset, fallback flag and address bar as they were; loading ends and the lists are untouched |
| SearchPage.SearchState.LoadMore | src/app/search/page.tsx:335-338 | without a next offset no request is made and no field changes; otherwise the page at that offset is requested; on success it is appended, with the new total, next offset and fallback flag, a cleared error and a synced address; on failure the results, total and next offset stay and the error is the failure message |
| SearchPage.SearchState.ClearFilters | src/app/search/page.tsx:324-333 | the filters return to "", "", "relevance", "asc", the results are emptied, and the address bar is synced with those values; the lists, error, loading flag and fallback flag are unchanged |
| SearchPage.ClearedUrl | src/app/search/page.tsx:332 | after clearing, q and genre are gone from the address bar while sort reads "relevance" and order "asc" |
| SearchRoute.Request | src/app/api/search/route.ts:19-35 | OMDb is asked exactly when the trimmed term is non-empty and a key is configured, and then for the trimmed term |
| SearchRoute.YearOf | src/app/api/search/route.ts:62 | a year exactly when `Number(Year)` is a number other than 0, and then that number |
| SearchRoute.ItemFields | src/app/api/search/route.ts:61-69 | an item keeps the hit's id and title; `meta` is present exactly when the year is, and reads back as the year; the poster is the hit's unless it is missing, empty or "N/A" |
| SearchRoute.YearOfNumeral | src/app/api/search/route.ts:62 | a year written as a decimal numeral comes back as that number, unless it is 0 |
| SearchRoute.Items | src/app/api/search/route.ts:61-70 | one item per OMDb hit, in order, each made from the hit at its position |
| SearchRoute.SearchCases | src/app/api/search/route.ts:17-73 | a blank term answers 200 with no items; no key answers 500 with the missing-key error; an OMDb failure answers 502; a reply without "True" or without `Search` answers 200 with no items; otherwise 200 with one item per hit |
| SearchRoute.SearchStatus | src/app/api/search/route.ts:21-72 | the status is 200, 500 or 502; only 200 comes without an error, and only 200 can carry items |
| SearchRoute.SearchItems | src/app/api/search/route.ts:61-72 | each item of a successful search has the id and title of the hit at the same position |
| PosterRoute.YearParam | src/app/api/poster/route.ts:7 | no year for a missing or empty parameter; otherwise `Number(year)`, which may be NaN |
| PosterRoute.YearParamNumeral | src/app/api/poster/route.ts:7 | a year written as a decimal numeral reaches the lookup as that number |
| PosterRoute.PosterOf | src/app/api/poster/route.ts:14 | a poster exactly when the lookup found a record whose poster is non-empty and not "N/A" |
| PosterRoute.LookupArgs | src/app/api/poster/route.ts:6-13 | no lookup for a missing or empty title; otherwise the lookup gets the title and the parsed year |
| PosterRoute.GetCases | src/app/api/poster/route.ts:4-21 | the status is 400 exactly when the title is missing or empty; otherwise the reply echoes the title and year passed to the lookup, with the lookup's usable poster |
| PosterRoute.GetPosterUsable | src/app/api/poster/route.ts:14-20 | the poster sent back is never empty or "N/A" |
| LandingPage.JsRem | src/app/page.tsx:276 | JavaScript `%` by a positive divisor: in [0, total) for a non-negative dividend, in (-total, 0] for a negative one |
| LandingPage.RemSmall | src/app/page.tsx:283-289 | below three times the divisor, the remainder is the dividend less at most two divisors |
| LandingPage.Step | src/app/page.tsx:289 | from a valid slide, a step of -1, 0 or 1 lands on a valid slide |
| LandingPage.StepForward | src/app/page.tsx:276-289 | a step forward goes to the next slide, or from the last back to the first; `(i + 1) % total` and `go(1)` agree |
| LandingPage.StepBack | src/app/page.tsx:283-289 | a step back goes to the previous slide, or from the first to the last |
| LandingPage.GoInverse | src/app/page.tsx:289 | previous then next, or next then previous, returns to the starting slide |
| LandingPage.Forward | src/app/page.tsx:276 | any number of autoplay ticks keeps the index a valid slide |
| LandingPage.ForwardSteps | src/app/page.tsx:276 | n ticks from slide i, short of a full turn, show slide i + n |
| LandingPage.FullTurn | src/app/page.tsx:276 | autoplay shows every slide in order and is back on the first after `total` ticks |
| LandingPage.BannerCarousel.constructor | src/app/page.tsx:270-272 | a carousel over a non-empty list of banners starts on the first slide, not hovered |
| LandingPage.BannerCarousel.Tick | src/app/page.tsx:274-276 | an autoplay tick, which only runs without reduced motion, without hovering and with more than one slide, moves one slide forward |
| LandingPage.BannerCarousel.KeyRight | src/app/page.tsx:282 | the right-arrow key moves one slide forward, wrapping to the first |
| LandingPage.BannerCarousel.KeyLeft | src/app/page.tsx:283 | the left-arrow key moves one slide back, wrapping from the first to the last |
| LandingPage.BannerCarousel.Go | src/app/page.tsx:289 | `go(dir)` moves to `(i + dir + total) % total` and keeps the index valid |
| LandingPage.BannerCarousel.Dot | src/app/page.tsx:387-389 | clicking dot i shows slide i, and i is the only active slide |
| LandingPage.BannerCarousel.Hover | src/app/page.tsx:294-295 | entering or leaving sets the hover flag only; while hovering, autoplay is off |
| LandingPage.BackAndForth | src/app/page.tsx:349-365 | the previous and next buttons undo each other |
| LandingPage.SubmitTarget | src/app/page.tsx:216-221 | a blank query goes nowhere; otherwise the search page is opened with the trimmed query, which is non-empty |
| LandingPage.SubmitReachesSearch | src/app/page.tsx:220 | the search page, opened from the search bar, starts with the query the visitor typed, trimmed |

## Left out

- File and stream I/O, console messages ("Wrote N lines"), `process.exit` and the early exits for a missing, empty or unreadable input file are not modelled: each script's input is its sequence of rows or lines, and its output is the sequence of records written.
- CSV parsing by `csv-parse` and Python's `csv.DictReader` (quoting, restkey, duplicate headers, a file without a header) is not modelled: a row is given as a map from column to cell.
- `JSON.parse`, `JSON.stringify`, `ast.literal_eval`, `url.toString()` and `encodeURIComponent` are not modelled: parsers are function parameters, and output is the record or the name/value pairs before serialisation.
- JSON values of the wrong shape (non-array genres, non-string names or jobs) are not modelled: the parsers are typed so that they return the expected shape or fail.
- Python values that cannot be dictionary keys, and floats, sets and bytes from `literal_eval`, are not modelled.
- The network: `fetch`, the request timeouts, throttling `sleep`s and OMDb URLs. The provider is a function parameter. A fetch that throws inside an API route (which Next.js turns into a 500) is not modelled.
- In-flight coalescing of concurrent `fetchOmdbOnce` calls is a concurrency concern and is not modelled.
- The loading and saving of the scripts' cache files, and how often the cache is saved, are not modelled; the loaded cache is a parameter.
- JavaScript numbers are modelled as integers: `Number(s)` reads an optional sign and decimal digits around whitespace ("" is 0). Floats, exponents, hexadecimal and `Infinity` are out of scope, and NaN is `None`. Python `int()` likewise ignores underscores and non-ASCII digits.
- Unicode NFKD normalisation and the removal of combining marks in `normTitle` are not modelled. `toLowerCase` changes only ASCII letters.
- `localeCompare` in the poster sort is replaced by lexicographic order on code points (Dafny `char`s).
- All rendering, animation, the `Poster` component, `MovieCard`, the dialog wrappers, keyboard focus shortcuts, the rotating hints and the actor-pair finder are UI only.
- The search page's debounce, its auto-search effects and its initial fetch effect are not modelled; `runSearch` is modelled as one completed request, not as interleaved asynchronous calls.
- Aborting an earlier request by a later one is not modelled beyond the abort outcome, which leaves the error unset.
- The saved lists are not loaded from or persisted to `localStorage`: the page state starts with no lists, and `AddToList` changes the in-memory store only.
- SearchPage.SearchState.AddToList: when the state updater throws (a list name inherited from `Object.prototype`), React propagates the error; the model reports the throw and leaves the lists as they were, and what the page does after the error is not modelled.
- LandingPage.BannerCarousel.constructor: requires at least one banner. With no banners, `% 0` gives NaN in the source, and that case is not modelled.
- LandingPage.BannerCarousel.Go: requires a direction of -1, 0 or 1. The page only ever calls `go(-1)` and `go(1)`.
- LandingPage.BannerCarousel.Tick: stands for one firing of the autoplay interval; timers and the 4.5-second period are not modelled.
