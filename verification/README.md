# quotes-flask-app: scraper, incremental merge and query view

A Dafny model of the core of the quotes web app, `flask_scraping.py`. The app
does three things, and the model has one part for each:

- **Scraper** (`Scraper.ScrapeAllQuotes`, imperative). It requests pages
  1, 2, 3, … of the quotes site in turn. Each quote on a page becomes a row
  `quote, author, tags`, where the tags cell is the tag texts joined with
  `", "`. It stops at the first page with a non-200 status or no quote, and
  never collects more than `max_quotes` rows. The site is a parameter: a
  sequence of responses, page `p` being element `p - 1`, and every page past
  the end an empty page with status 200.
- **Incremental update** (`Merge.MergeQuotes`, pure, and
  `Updater.QuotesFile.UpdateQuotesIfNew`, which changes the stored file).
  Only scraped rows whose quote text is not yet stored are kept. They are
  appended to the stored corpus and duplicates by quote text are dropped,
  keeping the first row of each. The file is rewritten only when at least one
  row was new. The merge returns `None` exactly when nothing is written.
- **Query view** (`Query.Index`, pure). It takes the stripped `search`,
  `author` and `tag` arguments and applies three filters, each skipped when
  its argument is empty:
  - search: some cell contains the query, ignoring case;
  - author: exact equality;
  - tag: the tags cell contains the tag, ignoring case.

  It then cuts the selected rows into pages of 10, computes the page count
  `max(1, ceil(n / 10))`, and builds the sorted, duplicate-free list of tags
  of the selected rows. The tags are recovered by splitting the tags cell on
  `,` and stripping each piece.

Shared string operations live in `Text`: strip, ASCII lower-casing, literal
substring, split, join and Python's string order. The row type and
order-preserving selection live in `Records`. The tags cell and its round
trip live in `Tags`.

The search filter tests each cell on its own
(`row.astype(str).str.contains(...).any()`). A search over the concatenated
fields would also match a query spanning the end of one cell and the start of
the next. The code, and so the model, matches cell by cell, and such a query
does not match.

## Model

| member | source | states |
|---|---|---|
| Scraper.ScrapeAllQuotes | flask_scraping.py:17-52 | The rows collected are a prefix of all rows the site offers before its first failing or empty page. There are exactly min(max_quotes, that many) of them, or none when max_quotes <= 0. Pages are requested as 1, 2, 3, …. No page is requested when max_quotes <= 0. When fewer than max_quotes rows are collected, the requests run exactly up to the first failing or empty page. When max_quotes rows are collected, the requests stop at the page whose rows reach the cap, which has quotes. |
| Scraper.CapReached | flask_scraping.py:47-48 | A page whose rows take the running total from below the cap to the cap is the page on which the cap is reached. |
| Scraper.ToRecord | flask_scraping.py:41-45 | The row keeps the div's text and author. Its tags cell is empty for no tags and starts with the first tag otherwise. |
| Scraper.ToRecordTags | flask_scraping.py:44 | For well-formed tag texts, the row's tags cell reads back as exactly the div's tags. |
| Scraper.EndOfData | flask_scraping.py:24-35 | Reference definition: the number of leading pages that answer 200 with quotes, at most the number of pages (its meaning is stated by EndOfDataStops). |
| Scraper.Harvest | flask_scraping.py:24-45 | Every page before the stopping point adds at least one row, so there are at least as many rows as such pages, and no row exactly when the first page already fails or is empty. |
| Scraper.RowsBeforeCount | flask_scraping.py:34-45 | Each of the first k pages with quotes adds at least one row. |
| Scraper.HarvestCoversPages | flask_scraping.py:24-50 | The rows of every run of leading pages with quotes are a prefix of all rows offered. |
| Scraper.EndOfDataStops | flask_scraping.py:24-35 | The pages before the stopping point all answer 200 with at least one quote, and the page at the stopping point (if any) does not. |
| Scraper.PageHasQuotes | flask_scraping.py:26-35 | Up to the stopping point, the response to a page number has quotes exactly when the page lies before the stopping point, so the loop stops there and not earlier. |
| Scraper.RowsBeforePrefix | flask_scraping.py:37-50 | The rows of the first i pages are a prefix of the rows of the first k pages, for i <= k. |
| Scraper.RowsOfNext | flask_scraping.py:37-45 | The rows of the first j + 1 quote divs are those of the first j followed by the row of div j, and form a prefix of the rows of the whole page. |
| Tags.TagsRoundTrip | flask_scraping.py:44 | For non-empty, comma-free, stripped tag texts, splitting the joined cell on ',' and stripping gives back exactly the tags, in order. Line 44 joins; lines 139-140 split. |
| Tags.JoinTags | flask_scraping.py:44 | The joined cell is empty for no tags, the tag itself for one tag, and starts with the first tag otherwise. |
| Tags.TagsOf | flask_scraping.py:137-140 | Every tag read back from a cell is non-empty, stripped and free of commas. |
| Tags.CleanNoSeparator | flask_scraping.py:137-140 | Pieces free of a character strip to tags free of it. |
| Tags.TagsNormalForm | flask_scraping.py:136-141 | Reading the tags of a cell, joining them and reading again gives the same tags. |
| Tags.Clean | flask_scraping.py:137-140 | Each kept piece is non-empty and stripped, and there are no more tags than pieces. |
| Tags.CleanFromPieces | flask_scraping.py:137-140 | Every tag kept is the strip of one of the pieces. |
| Tags.CleanKeepsPieces | flask_scraping.py:137-140 | Every piece that does not strip to the empty string gives a tag. |
| Merge.NewQuotes | flask_scraping.py:71-78 | Keeps, in order, exactly the scraped rows whose quote text is not stored, every copy of each. Its keys are the scraped keys minus the stored keys. |
| Merge.DropDuplicates | flask_scraping.py:83 | No two resulting rows share a quote text, and the set of quote texts is unchanged. The result is an order-preserving subsequence. Every row whose text does not occur before it is kept. |
| Merge.DropDuplicatesNoDup | flask_scraping.py:83 | A corpus without duplicate texts is left exactly as it is. |
| Merge.DropDuplicatesPrefix | flask_scraping.py:82-83 | Appending rows never changes what dedup keeps of the rows in front. |
| Merge.MergeQuotes | flask_scraping.py:70-86 | Nothing is written iff every scraped text is already stored. A written corpus has no duplicate texts and holds exactly the stored texts plus the scraped ones. |
| Merge.MergeExtendsCorpus | flask_scraping.py:80-84 | Merging into a duplicate-free corpus keeps it as a proper prefix and adds exactly one row per new quote text. |
| Merge.MergeKeepsCorpus | flask_scraping.py:82-83 | The stored duplicate-free corpus is a prefix of what is written. |
| Merge.MergeCount | flask_scraping.py:76-84 | The written corpus has the stored length plus the number of new quote texts, which is positive. |
| Merge.AfterUpdate | flask_scraping.py:80-86 | After one cycle the stored quote texts are the old ones plus the scraped ones, and the corpus is unchanged when no scraped text is new. |
| Merge.SecondUpdateWritesNothing | flask_scraping.py:65-86 | A second cycle against the same scrape writes nothing, and the stored corpus stays as it is (idempotence). |
| Updater.QuotesFile.UpdateQuotesIfNew | flask_scraping.py:65-86 | The file is rewritten (one more write) with the merged corpus when the capped scrape found a new text, and left untouched otherwise. Afterwards it holds what one update cycle leaves from the stored corpus. |
| Updater.DefaultScrape | flask_scraping.py:73 | Reference definition: one scrape with the default cap collects a prefix of the site's rows, of length min(1000, all rows). |
| Merge.UpdateKeepsCorpus | flask_scraping.py:70-86 | An update cycle keeps a duplicate-free corpus duplicate-free and as a prefix of what is stored afterwards. The stored keys become the old keys plus the scraped ones. |
| Updater.QuotesFile.constructor | flask_scraping.py:60-63 | The file starts with the given contents (or absent) and no writes. |
| Updater.QuotesFile.Load | flask_scraping.py:60-63 | Reference definition: an absent file loads as the empty corpus, an existing one as its rows. |
| Records.Where | flask_scraping.py:76-78 | The selection is an order-preserving subsequence, holding every copy of each element that satisfies the condition and nothing else. |
| Records.SameSelection | flask_scraping.py:112-126 | Two order-preserving selections that keep all or none of the copies of each element, and keep the same elements, are equal. |
| Records.NoDupKeysCount | flask_scraping.py:83 | A duplicate-free corpus has exactly one row per quote text. |
| Query.SearchFilter | flask_scraping.py:113-118 | With a non-empty query, keeps exactly the rows (all copies, in order) where some cell contains the query, ignoring case. With an empty query, keeps all rows. |
| Query.AuthorFilter | flask_scraping.py:121-122 | With a non-empty author, keeps exactly the rows whose author equals it; otherwise all rows. |
| Query.TagFilter | flask_scraping.py:125-126 | With a non-empty tag, keeps exactly the rows whose tags cell contains it, ignoring case; otherwise all rows. |
| Query.SearchFilterIgnoresCase | flask_scraping.py:113-118 | Two search queries that agree after ASCII lower-casing select the same rows in the same order (`case=False`). |
| Query.TagFilterIgnoresCase | flask_scraping.py:125-126 | Two tag filters that agree after ASCII lower-casing select the same rows in the same order (`case=False`). |
| Query.FilterQuotes | flask_scraping.py:112-126 | The three filters in sequence keep, in order, exactly the rows passing every non-empty filter. |
| Query.FilterIsConjunction | flask_scraping.py:112-126 | The filter chain equals the single selection by the conjunction of the filters. |
| Query.Selection | flask_scraping.py:112-126 | Reference definition: the rows satisfying all non-empty filters, as a subsequence with every copy. |
| Query.TotalPages | flask_scraping.py:129-130 | At least 1. It is 1 for no rows; otherwise the least t with n <= 10t. |
| Query.MatchesSearch | flask_scraping.py:114-117 | Every row matches an empty query, and a matching query is no longer than one of the row's cells, since each cell is tested on its own. |
| Query.MatchesTag | flask_scraping.py:126 | Every row matches an empty tag, a matching tag is no longer than the tags cell, and a row with an empty tags cell matches no non-empty tag. |
| Query.SliceBound | flask_scraping.py:133 | Reference definition: a slice bound resolved as Python does: counted from the end when negative, then clamped into 0..n. |
| Query.PySlice | flask_scraping.py:133 | Reference definition: the slice is the run between the resolved bounds, or empty when they cross. It has no more than hi - lo rows, all taken from the input. |
| Query.PageSlice | flask_scraping.py:131-133 | At most 10 rows. For page >= 1, row k is row (page-1)*10+k, and the page is empty iff there are no rows or page > TotalPages. Page 0 is empty. A negative page is the window counted from the end. |
| Query.PageSliceCovers | flask_scraping.py:129-133 | Every row appears on the page its position gives, and that page is within the page count. |
| Query.TwentyFiveRows | flask_scraping.py:129-133 | 25 rows give 3 pages of 10, 10 and 5, an empty page 4 and an empty page 0. Page -1 is rows 5 to 14. |
| Query.InsertTag | flask_scraping.py:136-141 | Inserting into a strictly ascending list keeps it strictly ascending and adds exactly the one tag. |
| Query.InsertTags | flask_scraping.py:136-141 | Inserting several tags keeps the list strictly ascending and adds exactly those tags. |
| Query.AllTags | flask_scraping.py:136-141 | The facet list is strictly ascending (sorted, no repeats) and its tags are non-empty, stripped and free of commas. |
| Query.AllTagsMembers | flask_scraping.py:136-141 | A tag is in the facet list iff it is a stripped non-empty piece of some row's tags cell. |
| Query.AllTagsIsSortedSet | flask_scraping.py:136-141 | The facet list is the one strictly ascending list of the rows' tags, i.e. `sorted` of the set. |
| Query.Index | flask_scraping.py:103-152 | The view echoes the stripped arguments and the page number, and its quotes are that page of the selection by all non-empty filters. The page count is that of the selection. The facet list is strictly ascending and holds exactly the tags of the selected rows. |
| Text.Strip | flask_scraping.py:107-109 | The result has no whitespace at either end and is no longer than the input. |
| Text.StripIsSlice | flask_scraping.py:107-109 | The result is a slice of the input, and everything cut off before and after it is whitespace. |
| Text.StripChars | flask_scraping.py:137 | The strip of a string holds only characters of that string. |
| Text.TrimLeft | flask_scraping.py:107 | Removes exactly the leading whitespace: a suffix whose first character is not whitespace. |
| Text.TrimRight | flask_scraping.py:107 | Removes exactly the trailing whitespace: a prefix whose last character is not whitespace. |
| Text.StripTrimmed | flask_scraping.py:137 | Stripping an already stripped string changes nothing. |
| Text.StripSpacePrefix | flask_scraping.py:137 | Whitespace in front of a string does not change its strip. |
| Text.Split | flask_scraping.py:139 | Splitting always yields at least one piece, and no piece contains the separator (with JoinSplit, this fixes the pieces). |
| Text.JoinSplit | flask_scraping.py:139 | Joining the pieces of a split with the separator gives back the string. |
| Text.SplitPrefix | flask_scraping.py:139 | A separator-free prefix only extends the first piece of a split. |
| Text.LowerStr | flask_scraping.py:115 | Lower-casing keeps the length, leaves no 'A'..'Z', maps each upper-case ASCII letter to its lower-case letter and leaves every other character unchanged. |
| Text.ContainsIgnoreCaseBounds | flask_scraping.py:115 | The empty needle occurs in every string, and a needle longer than the haystack occurs in none. |
| Text.ContainsIgnoresCase | flask_scraping.py:115 | Two queries that differ only in ASCII case select the same cells. |
| Text.LessIrreflexive | flask_scraping.py:136 | No string sorts before itself. |
| Text.LessTransitive | flask_scraping.py:136 | The string order is transitive. |
| Text.LessTotal | flask_scraping.py:136 | Of two distinct strings one sorts before the other. |
| Text.AscendingUnique | flask_scraping.py:136 | Two strictly ascending lists with the same elements are equal. |

## Left out

- HTTP requests and HTML parsing (`requests.get`, BeautifulSoup). Each page is given as a response holding its status and the quote divs already parsed into text, author and tag texts.
- Scraper.ScrapeAllQuotes: the site is a finite sequence, and every page past its end is modelled as an empty 200 page. This is what the real site serves; a site that never ends is not modelled.
- Network errors and exceptions in the scraper are not modelled, and neither is `scraper_loop`'s catch-all. The background thread, `time.sleep` and the three-hour interval are left out, because they are concurrency and clocks. The progress messages printed by `update_quotes_if_new` and `scraper_loop` are output only and are left out.
- CSV reading and writing (`save_quotes_to_csv`, `pd.read_csv`, `to_csv`) are not modelled. The file is an object holding its rows, absent until first written, and `Load` gives an empty corpus for an absent file.
- Pandas' reading of an empty tags cell as NaN. The model keeps the empty string, which gives the same facet list (`dropna`) and, while some stored tags cell is non-empty, the same tag filter (`na=False`). It differs in two ways. First, `astype(str)` turns the missing cell into the text "nan", so in the app a search for any substring of "nan" ("n", "a", "an", "na", "nan", in any case) matches such a row through its tags cell, and in the model it does not. Second, when every stored tags cell is empty, pandas reads the whole column as numbers, and the app's tag filter raises an error for any non-empty tag, while the model selects nothing.
- Query.MatchesSearch: pandas' `str.contains` treats the query as a regular expression by default, and a malformed pattern raises an error. The model treats it as a literal substring, so a query with regex metacharacters is outside the model.
- Query.MatchesTag: the same literal-substring reading of the tag filter. Like the app, a tag also matches any tags cell where it occurs as part of a longer tag.
- Text.Strip: whitespace is ASCII whitespace (space, 9-13, 28-31). Python's `str.strip` also removes Unicode spaces.
- Text.LowerStr: case folding is ASCII only. Pandas' `case=False` folds all of Unicode.
- Flask routing, query-string parsing and template rendering are not modelled. `int()` of a non-numeric `page` raises an error in the app. `Query.Index` takes the page number already parsed and returns the values handed to the template.
- The cold-start path under `__main__` is not modelled. It saves a fresh scrape without de-duplication when no CSV exists.
- Tags.TagsRoundTrip requires tag texts to be non-empty, comma-free and stripped. A tag containing a comma splits into several facets, in the app as in the model.
