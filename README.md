# Paperspider core, modelled in Dafny

Paperspider crawls the "recent" listing pages of arXiv categories. It stores each new paper in a
`papers` table and downloads today's PDFs into `papers/<YYYY-MM-DD>/<arxiv_id>.pdf`. A
`paper_downloads` row tracks each download's status. This project models the sequential logic
behind the Scrapy, requests and SQLAlchemy plumbing, and proves properties of that model:

- **The spider** (`ArxivSpider`, module `Spider`, with the pure page logic in module `Listing`):
  - the per-category first requests;
  - the parse of one listing page: header date and entry count, `dt`/`dd` pairing, id extraction,
    title, author and category cleaning, the PDF URL, and the fail-open existence check;
  - the follow-up request that rewrites `skip=`;
  - the selection of today's papers when the spider closes.
- **The record store** (`DBManager`, module `RecordStore`): `paper_exists`, and the
  insert-if-absent gate `save_paper` with its rollback path. The committed table is a map keyed
  by `arxiv_id`.
- **The downloader** (`PaperDownloader`, module `Downloader`):
  - the download path;
  - the status row moving `downloading` → `completed` / `failed`;
  - the three-attempt retry loop;
  - streaming into `<path>.tmp` with progress commits, then the rename or the cleanup;
  - batch submission.

Supporting modules:
- `Basics`: `Option` and sequence helpers.
- `PyStr`: Python's `find`, `in`, `split`, `join`, `strip`, `replace(pat, '')`, `int()` and
  `str()`, defined the way CPython scans.
- `SkipParam`: `re.search(r'skip=(\d+)')` and `re.sub(r'skip=\d+', …)`.
- `Clock`: `datetime` values, the one-day window and `strftime('%Y-%m-%d')`.
- `Records`: the persisted record shapes.

The outside world is explicit:
- HTML selector results are the fields of `Page`, `DtTag` and `DdTag`.
- `strptime` is a parameter `parseDate: string -> Option<DateTime>`; `None` is `ValueError`.
- `datetime.utcnow()` is a parameter `now` / `today`.
- The existence check met by pair `i` is `checks(i, id)`: an answer or a raised error.
- The `k`-th GET attempt of one download is `net(k)`: a connection error, or a response with a
  status, an optional `content-length`, the chunks `iter_content` yields and an optional error
  raised after them.
- The file system is a map from path to bytes.
- `time.sleep` calls are recorded in a list, not waited for.
- Work handed to the thread pool is a list of submitted papers.

Behaviour of the code worth noting:
- **All retries fail.** The retry loop re-raises its last error before `temp_path` is bound
  (app/utils/downloader.py:62, 65). The `except` block commits `failed` and then reads the
  unbound `temp_path` (app/utils/downloader.py:91), so an `UnboundLocalError` escapes and the
  call never returns `(False, msg)`. The model ends this path with `RaisedUnbound`
  (`Downloader.AllRetriesFailRaises`).
- **No committed row is `pending`.** The column comment at app/models/paper_download.py:11 lists
  `pending` as the first status, and it is the column default. But `download_paper` sets a new
  row to `downloading` before its first commit (app/utils/downloader.py:39-46), so `pending` is
  never committed.
- **The title label.** `replace('Title:', '')` removes every occurrence of the label, wherever
  it stands, not only a leading one (app/spiders/arxiv_spider.py:151).
- **The date of a page.** `replace(hour=0, minute=0, second=0)` would leave the microseconds of
  the date it is given (app/spiders/arxiv_spider.py:99). But `strptime` with `'%a, %d %b %Y'`
  already returns midnight with 0 microseconds, so on a parsed header the call changes nothing
  and the leftover microseconds are never observed. A page without a header line dates its items
  with the current time (app/spiders/arxiv_spider.py:169).
- **Pagination needs `skip=` in the URL.** Without a `skip=\d+` match the current offset is 0
  and `re.sub` returns the URL unchanged (app/spiders/arxiv_spider.py:196-208). With more than
  250 entries, `parse` would then request its own URL again, and only Scrapy's duplicate filter
  would end that loop. The first requests always carry `skip=0` (app/spiders/arxiv_spider.py:59),
  and `Listing.CrawlUrls` follows the chain only from such URLs.

## Model

| member | source | states |
|---|---|---|
| Spider.ArxivSpider.constructor | app/spiders/arxiv_spider.py:19-27 | the categories are the comma-separated parts of the argument; the emitted-id list starts empty and a session is open |
| Spider.DefaultCategoryList | app/spiders/arxiv_spider.py:19-21 | the default `'cs.AI,cs.CL'` splits into exactly `cs.AI` and `cs.CL` |
| Spider.ArxivSpider.StartRequests | app/spiders/arxiv_spider.py:55-66 | one request per category, in category order, to `https://arxiv.org/list/<c>/recent?skip=0&show=250` with the category in its meta; for a category without `=`, the URL's offset reads back as 0 |
| Spider.ArxivSpider.Parse | app/spiders/arxiv_spider.py:72-217 | the items yielded are `PageItems` of the page and the follow-up request is `NextRequest`; `new_paper_ids` grows by exactly the emitted ids, in emission order |
| Spider.ArxivSpider.ParseEntries | app/spiders/arxiv_spider.py:126-192 | the loop over the zipped pairs collects, in order, the item of every pair that contributes one; the id list grows by their ids |
| Spider.ArxivSpider.ParseEntry | app/spiders/arxiv_spider.py:128-190 | the body for one pair: no item without an id or for an id the check reports present; otherwise `MakeItem`, whose id is the pair's id |
| Spider.ExtendStripped | app/spiders/arxiv_spider.py:175 | the extend loop appends exactly the stripped, non-empty entries, in order |
| Spider.BuildCategories | app/spiders/arxiv_spider.py:171-183 | the list built is `Categories` of the primary-subject and subject texts |
| Spider.ArxivSpider.Closed | app/spiders/arxiv_spider.py:29-53 | the papers submitted are exactly those published in `[today, today + 1 day)`, each once; nothing is submitted when the query raises or when `today + 1 day` overflows; the session is closed on every path |
| Spider.TodaysPapers | app/spiders/arxiv_spider.py:33-38 | the query window selects exactly the stored papers whose publication date is today's date |
| Listing.NoContainerNoOutput | app/spiders/arxiv_spider.py:76-85 | a page without `dl#articles` yields no item and no request |
| Listing.DatePartBeforeParen | app/spiders/arxiv_spider.py:96 | the date part is the stripped text before the first `(` |
| Listing.HeaderDatePart | app/spiders/arxiv_spider.py:96 | `split('(')[0].strip()` of the header; DatePartBeforeParen proves it is the stripped text before the first `(` |
| Listing.PageDate | app/spiders/arxiv_spider.py:91-103 | `current_date`: none without a header line; the parsed date part with the time cleared; or `now` when parsing raises |
| Listing.ItemDate | app/spiders/arxiv_spider.py:169 | the date each item gets: the page date, or `now` when the page has none |
| Listing.ClearTime | app/spiders/arxiv_spider.py:99 | clearing the time keeps the date and leaves exactly the sub-second microseconds of the input |
| Listing.MissingHeader | app/spiders/arxiv_spider.py:88-114 | without a header line the total is 0, no next request is made, and items are dated `now` |
| Listing.HeaderTotal | app/spiders/arxiv_spider.py:106-114 | the total: 0 without `showing first`, otherwise the count read after its first occurrence; HeaderTotalShowing, HeaderTotal438 and MissingHeader state its values |
| Listing.EntriesCount | app/spiders/arxiv_spider.py:109-114 | 0 without `of`; otherwise `int()` of the text between the first `of` and the next `entries`, or 0 when `int()` raises |
| Listing.TotalAfterShowing | app/spiders/arxiv_spider.py:107-108 | the count is read from the text after the first `showing first`, when no `s` precedes it and no `h` follows it (conditions that imply no other `showing first`) |
| Listing.CountBetweenOfAndEntries | app/spiders/arxiv_spider.py:109-114 | the count is `int()` of the text between the first `of` and the following `entries`, or 0 when `int()` raises |
| Listing.HeaderTotalShowing | app/spiders/arxiv_spider.py:106-114 | `showing first K of N entries` gives total `N` for any `K` and `N`, when no `s` precedes the phrase and no `h` or `f` follows it (conditions that imply no other `showing first`) |
| Listing.HeaderTotal438 | app/spiders/arxiv_spider.py:106-114 | the header of a 438-entry listing gives total 438 |
| Listing.PairCount | app/spiders/arxiv_spider.py:117-127 | `zip` covers exactly the shorter of the `dt` and `dd` lists |
| Listing.MismatchProcessesZip | app/spiders/arxiv_spider.py:122-127 | a length mismatch changes nothing but the number of pairs: the page's items are those of its zipped prefix |
| Listing.FirstAbsFrom | app/spiders/arxiv_spider.py:130 | the first href at or after `k` containing `/abs/`, or none |
| Listing.EntryId | app/spiders/arxiv_spider.py:130-139 | no id without an `/abs/` link or with an empty segment after it; otherwise the segment after the first `/abs/` (IdAfterFirstMarker, IdOfAbsPath) |
| Listing.AbsLink | app/spiders/arxiv_spider.py:130 | `.get('')`: the first href that contains `/abs/`, or `''` exactly when none does |
| Listing.IdAfterFirstMarker | app/spiders/arxiv_spider.py:136 | the id is the text right after the first `/abs/`, up to the end or the next `/abs/`, and holds no `/abs/` |
| Listing.IdOfAbsPath | app/spiders/arxiv_spider.py:130-139 | a link `/abs/<id>` with a non-empty id yields that id |
| Listing.TitleOfLabelled | app/spiders/arxiv_spider.py:149-152 | a title text `Title:` + t inside whitespace gives exactly t |
| Listing.Title | app/spiders/arxiv_spider.py:149-152 | the joined title texts with every `Title:` removed, then stripped; TitleOfLabelled gives its value on a labelled title |
| Listing.StripEach | app/spiders/arxiv_spider.py:155-156 | authors are stripped element-wise, same length and order |
| Listing.StrippedNonEmpty | app/spiders/arxiv_spider.py:175 | every kept entry is non-empty and already stripped, and no more are kept than given |
| Listing.StrippedNonEmptySnoc | app/spiders/arxiv_spider.py:175 | the comprehension over `xs + [x]` is that over `xs` followed by `x.strip()` when it is non-empty, and over `[]` it is `[]`: which entries are kept, and their order, are fixed |
| Listing.StrippedNonEmptyOmits | app/spiders/arxiv_spider.py:181 | stripping adds no character: a character absent from every input is absent from every output |
| Listing.StrippedNonEmptyKeeps | app/spiders/arxiv_spider.py:175 | entries that are already stripped and non-empty pass through unchanged |
| Listing.StrippedNonEmptyBlank | app/spiders/arxiv_spider.py:175 | nothing is kept exactly when every entry strips to the empty string |
| Listing.OtherCategories | app/spiders/arxiv_spider.py:177-181 | the stripped, non-empty segments after the first `;` of the first subjects text; nothing without a subjects text or a `;` |
| Listing.Categories | app/spiders/arxiv_spider.py:171-183 | the primary subjects' stripped, non-empty entries, followed by OtherCategories |
| Listing.CategoriesWithoutSemicolon | app/spiders/arxiv_spider.py:177-181 | without `;` in the first subjects text only the primary subjects are kept; with one, the stripped non-empty segments after the first `;` follow |
| Listing.CategoriesShape | app/spiders/arxiv_spider.py:171-183 | every category is non-empty and stripped; those after the `;` hold no `;` |
| Listing.PdfUrl | app/spiders/arxiv_spider.py:166 | the URL is `https://arxiv.org/pdf/`, then exactly the id, then `.pdf` |
| Listing.PdfUrlInjective | app/spiders/arxiv_spider.py:166 | two ids give the same PDF URL exactly when they are equal |
| Listing.MakeItem | app/spiders/arxiv_spider.py:145-183 | the item's id, title, authors, empty institutions, abstract, PDF URL, page date and categories |
| Listing.IsPaperExists | app/spiders/arxiv_spider.py:219-225 | the entry counts as known exactly when the store answered `True`; a raised check counts as absent |
| Listing.EntryItem | app/spiders/arxiv_spider.py:130-190 | what one pair contributes: nothing without an id or when the check reports it present, otherwise MakeItem of its id, its `dd` block and the page date |
| Listing.EntryItems | app/spiders/arxiv_spider.py:127-192 | one contribution per zipped pair, in page order, each that pair's `EntryItem` |
| Listing.PageItems | app/spiders/arxiv_spider.py:76-192 | no items without `dl#articles`; otherwise the items of the contributing pairs, in page order (ItemFromAbsentEntry, AbsentEntryEmitted, KnownIdsNotEmitted) |
| Listing.ItemFromAbsentEntry | app/spiders/arxiv_spider.py:127-188 | every item comes from a pair whose id the store did not report present, and is that pair's item |
| Listing.AbsentEntryEmitted | app/spiders/arxiv_spider.py:144-188 | every pair with an id the store did not report present contributes its item |
| Listing.KnownIdsNotEmitted | app/spiders/arxiv_spider.py:144 | with a truthful store, no id it holds is emitted |
| Listing.CheckFailureIsNew | app/spiders/arxiv_spider.py:221-225 | an existence check that raises lets the entry through (fail-open) |
| Listing.FirstUrl | app/spiders/arxiv_spider.py:59 | `https://arxiv.org/list/<category>/recent?skip=0&show=250`; FirstUrlSkip proves its only offset is 0 |
| Listing.CurrentSkip | app/spiders/arxiv_spider.py:196-199 | the value of the first `skip=\d+` of the URL, or 0 without one |
| Listing.FirstUrlSkip | app/spiders/arxiv_spider.py:59 | a first-page URL holds one offset, 0 |
| Listing.NextPageUrl | app/spiders/arxiv_spider.py:195-208 | a next page exists exactly when `total > 0` and `current_skip + 250 < total`; every `skip=` of its URL then reads back as `current_skip + 250` |
| Listing.NextRequest | app/spiders/arxiv_spider.py:195-215 | no request without `dl#articles`; otherwise a request for NextPageUrl of the page URL and header total, with the page's category |
| Listing.CrawlUrls | app/spiders/arxiv_spider.py:195-215 | the chain of page URLs visited by following the next requests while each page reports the same total; CrawlFollowsSkips gives its offsets |
| Listing.PageSkips | app/spiders/arxiv_spider.py:195-215 | the crawl offsets start at the first page's own offset |
| Listing.CrawlFollowsSkips | app/spiders/arxiv_spider.py:195-215 | following the next-page requests while every page reports the same total visits the offsets of `PageSkips` |
| Listing.PageSkipsShape | app/spiders/arxiv_spider.py:202-206 | offsets rise by 250; every offset after the first is below the total; the last page reaches the total; the page count is the ceiling of the remaining entries over 250 |
| Listing.PagesCoverEntries | app/spiders/arxiv_spider.py:195-215 | from offset 0, every entry position below the total falls on some requested page |
| Listing.Crawl438 | app/spiders/arxiv_spider.py:55-215 | a 438-entry category is crawled at offsets exactly 0 and 250 |
| SkipParam.DigitRun | app/spiders/arxiv_spider.py:197 | greedy `\d+`: the longest digit prefix |
| SkipParam.SearchSkip | app/spiders/arxiv_spider.py:197-199 | `re.search(r'skip=(\d+)')` then `int(group(1))`: the value of the leftmost match, or none; SearchIsFirst ties it to FindAllSkips |
| SkipParam.FindAllSkips | app/spiders/arxiv_spider.py:208 | the values of all leftmost, non-overlapping matches of `skip=\d+`, the ones `re.sub` replaces |
| SkipParam.SubSkip | app/spiders/arxiv_spider.py:208 | `re.sub(r'skip=\d+', repl, url)`: each match replaced, the rest copied; FindAllSubSkip and SubSkipNoMatch state its effect |
| SkipParam.SearchIsFirst | app/spiders/arxiv_spider.py:197-199 | `re.search` reports the first of all matches, and none exactly when there is none |
| SkipParam.SkipText | app/spiders/arxiv_spider.py:208 | the replacement `skip=<n>` starts with `skip=` |
| SkipParam.MatchBack | app/spiders/arxiv_spider.py:208 | the substitution creates no new `skip=\d+` match at a copied character |
| SkipParam.ReplacementMatch | app/spiders/arxiv_spider.py:208 | a replacement followed by a non-digit reads back as one match of value `n` |
| SkipParam.FindAllSubSkip | app/spiders/arxiv_spider.py:208 | after `re.sub` there are exactly as many matches as before, each worth the new offset |
| SkipParam.SubSkipNoMatch | app/spiders/arxiv_spider.py:208 | without a match `re.sub` returns the URL unchanged |
| SkipParam.SearchSubSkip | app/spiders/arxiv_spider.py:197-208 | rewriting a URL that has an offset and searching it again gives the new offset |
| SkipParam.SkipsAfterPlainPrefix | app/spiders/arxiv_spider.py:59 | text without `=` before a character that cannot continue `skip=` adds no match |
| SkipParam.NoSkipWithoutK | app/spiders/arxiv_spider.py:59 | text without a `k` holds no match |
| RecordStore.UniqueArxivId | app/utils/db_utils.py:15 | at most one row carries an `arxiv_id`, and one does exactly when it is a key |
| RecordStore.DBManager.PaperExists | app/utils/db_utils.py:56-58 | true exactly when some committed row has that `arxiv_id` |
| RecordStore.Save | app/utils/db_utils.py:60-84 | insert succeeds exactly when the id is absent and nothing raises: the new row is `NewRecord` of the item under the next key, the other rows are unchanged, and the message is `保存成功`; a present id gives `论文已存在`; a raised error rolls back to the old table and reports its text |
| RecordStore.CategoriesRoundTrip | app/utils/db_utils.py:74 | an empty list stores `''`; otherwise the stored text splits back on `,` into the list |
| RecordStore.JoinCategories | app/utils/db_utils.py:74 | `','.join(categories) if categories else ''`; CategoriesRoundTrip proves it reads back |
| RecordStore.NewRecord | app/utils/db_utils.py:66-75 | the row built from the item: each column from its item field, `pdf_url` set, categories joined, the next key, created now |
| RecordStore.SavedCategoriesReadBack | app/utils/db_utils.py:64-79 | after a successful save, the stored categories are `''` for an empty list and otherwise split on `,` back into the item's list |
| RecordStore.SaveTwice | app/utils/db_utils.py:60-81 | saving one item twice: the first call inserts, the second reports the duplicate and writes nothing; exactly one row has the id |
| RecordStore.DBManager.constructor | app/utils/db_utils.py:30-46 | a session on the existing database: the tables are the given committed papers and download rows, which must satisfy the key and foreign-key invariants, and no commit is recorded yet |
| RecordStore.DBManager.SavePaper | app/utils/db_utils.py:60-84 | the new table, flag and message are those of `Save` on the old table; after a success the id is visible to `PaperExists`; the store's invariants (one row per `arxiv_id`, distinct issued keys, every `paper_id` referencing a paper) are preserved |
| RecordStore.HasPaperIdGrows | app/models/paper_download.py:10 | a table that keeps every row of another keeps every `paper_id` reference valid |
| RecordStore.FirstDownloadFrom | app/utils/downloader.py:37 | the first download row at or after `k` for the paper, or none |
| RecordStore.FirstDownload | app/utils/downloader.py:37 | `.first()`: the first download row for the paper, or none |
| RecordStore.PublishedBetween | app/spiders/arxiv_spider.py:35-38 | exactly the stored papers with `start <= published_date < end` |
| RecordStore.DBManager.CommitDownload | app/utils/downloader.py:46 | a new row is appended or an existing one replaced, and the committed state is recorded; the row's `paper_id` must reference a paper (app/models/paper_download.py:10) |
| Records.StatusText | app/models/paper_download.py:11 | each of the four statuses is stored as a text of at most 20 characters that reads back as that status |
| Records.StatusTextInjective | app/models/paper_download.py:11 | distinct statuses are stored as distinct texts |
| Records.NewPaperDownload | app/models/paper_download.py:10-14 | a new row has the paper id, `pending`, progress 0.0, no path and no error |
| Clock.Midnight | app/spiders/arxiv_spider.py:33-36 | `today` as midnight: same date, no time, not after the instant |
| Clock.NextDay | app/spiders/arxiv_spider.py:37 | `today + 1 day` overflows exactly on 9999-12-31; otherwise it is a valid midnight after `today` |
| Clock.DayWindow | app/spiders/arxiv_spider.py:35-38 | a valid instant lies in `[today, today + 1 day)` exactly when its date is today's |
| Clock.DateString | app/utils/downloader.py:24 | `%Y-%m-%d`: ten characters, `-` at 4 and 7, and the fields read back as the year, month and day |
| Clock.Digits | app/utils/downloader.py:24 | a zero-padded field of `width` digits that reads back as `n` when `n` fits |
| Clock.DateStringSameDate | app/utils/downloader.py:24 | two valid instants render the same text exactly when they share the date |
| Downloader.GetDownloadPath | app/utils/downloader.py:22-27 | the path is `papers/` + the creation date + `/` + id + `.pdf` |
| Downloader.DownloadPathInjective | app/utils/downloader.py:22-27 | two papers share a path exactly when they share the id and the creation date |
| Downloader.PaperDownloader.constructor | app/utils/downloader.py:14-20 | a downloader over a file system, with no sleeps, requests or submissions yet |
| Downloader.NoUrlTouchesNothing | app/utils/downloader.py:31-32 | without a PDF URL, `(False, 'PDF URL不存在')` and nothing is read, written, committed or requested |
| Downloader.PaperDownloader.Begin | app/utils/downloader.py:36-46 | the paper's first row, or a new one at the end, is set to `downloading` with progress 0 and the path, and committed |
| Downloader.HasUrl | app/utils/downloader.py:31 | `paper.pdf_url` is set and non-empty |
| Downloader.RowSlot | app/utils/downloader.py:37-40 | the index of the paper's first row, or the end of the table for a new row |
| Downloader.Put | app/utils/downloader.py:40-46 | writing the row at its slot: appended at the end, replaced in place otherwise, other rows unchanged |
| Downloader.StartRow | app/utils/downloader.py:37-45 | the row committed first: the existing or new row set to `downloading`, progress 0 and the download path |
| Downloader.FirstCommitDownloading | app/utils/downloader.py:37-46 | the first commit is `downloading` with progress 0, the path and the paper id; the existing row is reused, or exactly one row is added; that row ends holding the last commit and no other row changes |
| Downloader.AttemptTotal | app/utils/downloader.py:54-56 | a connection error, a 4xx/5xx status or an unreadable `content-length` make the attempt fail; otherwise the total is the header's value, or 0 without one |
| Downloader.HttpErrorText | app/utils/downloader.py:55 | the `HTTPError` text of `raise_for_status()`: the status, `Client Error` below 500 or `Server Error`, the reason and the URL |
| Downloader.InvalidLiteralText | app/utils/downloader.py:56 | the `ValueError` text of `int()` for an unreadable `content-length` |
| Downloader.RetryFrom | app/utils/downloader.py:51-62 | the result is the first successful attempt below 3, after only failures, or the last failure's error when all three fail |
| Downloader.RequestCount | app/utils/downloader.py:51-62 | the GETs made: one more than the successful attempt's index, or 3 when all fail |
| Downloader.PaperDownloader.Fetch | app/utils/downloader.py:49-62 | the loop's attempt and outcome are those of `RetryFrom`; one GET per attempt; a 5-second sleep before every further attempt |
| Downloader.StreamsFirstSuccess | app/utils/downloader.py:51-62 | the attempt streamed is a response, and every earlier one failed |
| Downloader.RetryBounds | app/utils/downloader.py:51-84 | between 1 and 3 GETs; 5-second sleeps only between attempts; the 1-second delay only after a completed download |
| Downloader.PaperDownloader.Stream | app/utils/downloader.py:65-76 | the `.tmp` file holds the concatenated chunks; the mid-stream commits are `StreamCommits` and the row ends as `StreamRow` |
| Downloader.Concat | app/utils/downloader.py:69-71 | the bytes written: all chunks, in order |
| Downloader.Pct | app/utils/downloader.py:74 | `(downloaded_size / total_size) * 100` |
| Downloader.StreamRow | app/utils/downloader.py:68-76 | the row after the chunks so far: the start row with the progress of all bytes, when `total > 0` and some byte arrived |
| Downloader.StreamCommits | app/utils/downloader.py:68-76 | one commit per non-empty chunk when `total > 0`, each with the progress of the bytes so far |
| Downloader.PctMonotone | app/utils/downloader.py:74 | more bytes never give a smaller percentage |
| Downloader.StreamCommitsShape | app/utils/downloader.py:68-76 | each mid-stream commit differs from the start row only in a positive progress, at most that of all bytes so far, and only with `total > 0` |
| Downloader.StreamProgressRises | app/utils/downloader.py:68-76 | the committed progress values never decrease |
| Downloader.StreamRowIsLastCommit | app/utils/downloader.py:68-76 | the row after the stream is its last commit; there is none exactly when the total is not positive or no byte arrived |
| Downloader.NoLengthNoProgress | app/utils/downloader.py:56-76 | without a positive `content-length` nothing is committed mid-stream and progress stays 0 |
| Downloader.TruthfulLengthReaches100 | app/utils/downloader.py:73-76 | with a truthful `content-length`, progress stays within 100 and the last chunk commits exactly 100 |
| Downloader.MidStreamProgress | app/utils/downloader.py:68-76 | the commits between the first and the last are the stream's, none without a positive length, and non-decreasing |
| Downloader.PaperDownloader.Finish | app/utils/downloader.py:64-93 | after the stream: rename, `completed`, 100, the delay and `(True, '下载成功')`; or on a stream error, `failed` with its text, `.tmp` removed and `(False, str(e))` |
| Downloader.FinishCommits | app/utils/downloader.py:64-93 | the finish commits the stream's rows, then one terminal row: `completed` on success, `failed` with the error otherwise |
| Downloader.FinishSpec | app/utils/downloader.py:64-93 | the effect after a successful attempt: the stream, then the rename, `completed` and the delay, or `failed` and the `.tmp` removed |
| Downloader.TransferSpec | app/utils/downloader.py:48-93 | the effect after the first commit: `failed` and the escaping error when all attempts fail, otherwise FinishSpec of the first success, after its sleeps and GETs |
| Downloader.TransferWritesSlot | app/utils/downloader.py:48-93 | after the first commit, every commit goes to the paper's row, which ends holding the last one |
| Downloader.PaperDownloader.Transfer | app/utils/downloader.py:48-93 | everything after the first commit follows `TransferSpec`: `failed` and the escaping error when all attempts fail, otherwise the finish |
| Downloader.PaperDownloader.DownloadPaper | app/utils/downloader.py:29-96 | the table, commits, files, sleeps, GET count and outcome are exactly those of `DownloadSpec` on the old state; for a paper whose id is in `papers`, the store's invariants, including the `paper_id` foreign key, are preserved |
| Downloader.CommitsOfPaper | app/utils/downloader.py:37-93 | every row the call commits carries the downloaded paper's id |
| Downloader.DownloadKeepsForeignKey | app/models/paper_download.py:10 | when every download row and the paper itself reference rows of `papers`, every download row afterwards still does |
| Downloader.DownloadSpec | app/utils/downloader.py:29-96 | the whole effect of one call: nothing without a URL, otherwise the first commit followed by TransferSpec; EndsTerminal, RetryBounds, SuccessWritesFile, StreamFailureCleansUp and AllRetriesFailRaises state its properties |
| Downloader.EndsTerminal | app/utils/downloader.py:29-96 | with a URL, the row ends `completed` or `failed` (with an error), `True` is returned exactly when `completed`, and every commit in between is `downloading` |
| Downloader.SuccessWritesFile | app/utils/downloader.py:64-85 | a success leaves the chunks at the path and no `.tmp`; other files are unchanged; the row is `completed` at 100 and `download_error` is unchanged |
| Downloader.StreamFailureCleansUp | app/utils/downloader.py:87-93 | a stream error gives `(False, str(e))` and `failed` with the text; `.tmp` is removed, no file is created and the others are unchanged |
| Downloader.AllRetriesFailRaises | app/utils/downloader.py:51-93 | three failed attempts commit `failed` with the last error and the call raises instead of returning; no file is touched; three GETs with two sleeps |
| Downloader.PaperDownloader.DownloadPapers | app/utils/downloader.py:98-107 | every paper is submitted, unfiltered and in order, with one handle per paper |
| PyStr.Split | app/spiders/arxiv_spider.py:21 | `str.split`: at least one part; more than one exactly when the separator occurs; the first part is the text before the first occurrence; no part holds the separator |
| PyStr.Find | app/spiders/arxiv_spider.py:107-109 | `s.find(pat)`: the leftmost occurrence, with none before it, or -1 when there is none; the `in` tests are `Find >= 0` |
| PyStr.Join | app/spiders/arxiv_spider.py:151 | `sep.join(parts)` |
| PyStr.JoinSplit | app/spiders/arxiv_spider.py:21 | joining the parts of a split with the same separator gives the text back |
| PyStr.SplitJoin | app/utils/db_utils.py:74 | splitting a join on a one-character separator no part contains gives the parts back |
| PyStr.Strip | app/spiders/arxiv_spider.py:151 | `str.strip`: no whitespace at either end, and an already stripped text is unchanged |
| PyStr.StripPadded | app/spiders/arxiv_spider.py:151 | whitespace around a stripped text is exactly what is removed |
| PyStr.RemoveAll | app/spiders/arxiv_spider.py:151 | `s.replace(pat, '')`: leftmost, non-overlapping occurrences removed in one pass; RemoveAllIsJoinOfSplit ties it to `split` |
| PyStr.RemoveOnlyOccurrence | app/spiders/arxiv_spider.py:151 | removing the only occurrence of a pattern joins the text around it |
| PyStr.RemoveAllIsJoinOfSplit | app/spiders/arxiv_spider.py:151 | `s.replace(p, '')` equals `''.join(s.split(p))` |
| PyStr.NatToString | app/spiders/arxiv_spider.py:208 | `str(n)`: non-empty digits without a leading zero whose value is `n` |
| PyStr.PyInt | app/spiders/arxiv_spider.py:110 | `int(s)`: whitespace, an optional sign and ASCII digits, otherwise `ValueError` (none); PyIntOfNatToString and PyIntRejects state its values |
| PyStr.PyIntOfNatToString | app/spiders/arxiv_spider.py:110 | `int()` of `str(n)` inside whitespace gives `n` |
| PyStr.PyIntRejects | app/spiders/arxiv_spider.py:110 | `int()` raises for a stripped text with a character that is neither a leading sign nor a digit |

## Left out

- HTML, CSS and XPath selectors and Scrapy responses: a page is the strings its selectors return.
- `datetime.strptime`, `datetime.utcnow()` and time zones: parsing is the parameter `parseDate`, the current time is a parameter.
- SQLAlchemy engines and sessions: the store is a committed table, a commit makes a state current, and closing the session is a flag.
- Concurrency: the thread pool is a list of submissions, and the download semaphore (capacity 2) is not modelled.
- Logging, `errback_httpbin`, Scrapy settings, `items.py`, `pipelines.py`, `settings.py` (its constants are inlined), `tasks.py` and `run_spider.py`.
- `mkdir` in `PaperDownloader.__init__` and `get_download_path`, `pathlib` normalisation, and failures of `open`, write, `rename` or `remove`: the file system is a total map from path to bytes.
- Database errors inside `download_paper`: the first query and every commit succeed in the model.
- The spider's existence check is an oracle per pair, so the store that `save_paper` changes through the pipeline is not linked to it.
- The `except Exception` around each entry (app/spiders/arxiv_spider.py:191-192): no modelled step of an entry raises, so that handler is unreachable here.
- `Spider.ArxivSpider.constructor`: `days_back` is taken as an integer; `int(days_back)` on a string, and its `ValueError`, are not modelled.
- PyStr.PyInt: accepts ASCII digits, an optional sign and surrounding whitespace. It does not accept Unicode digits or `_` separators, which CPython's `int()` accepts. It also lacks CPython's limit on the digits of a decimal string (4300 by default since Python 3.11 and the 2022 security releases). Past that limit `int()` raises `ValueError`, so app/spiders/arxiv_spider.py:110-114 sets the total to 0, while the model reads the number and NextPageUrl may then request a next page.
- The texts of exceptions (`HTTPError`, `ValueError` from `int()`) are approximations of the library messages, and the text of a mid-stream error is an input.
- Progress is a `real`, not a rounded IEEE float; the byte count is a list of byte values and `chunk_size` (8192) only bounds how the oracle splits the body.
- `authors` and `institutions` are kept as lists; their JSON encoding is a library call.
- `Spider.ArxivSpider.Closed`: `.all()` returns rows in database order; the model submits every selected paper exactly once in an unspecified order.
- `Downloader.PaperDownloader.DownloadPaper` and `RecordStore.DBManager.CommitDownload` require the row's `paper_id` to reference a paper; the `IntegrityError` a commit violating the foreign key would raise is not modelled. The papers `download_papers` receives come from the `papers` table (app/spiders/arxiv_spider.py:35-44), so they meet this.
- `Spider.ArxivSpider.Closed`: the spider's own session is never committed or rolled back, so `_is_paper_exists` (app/spiders/arxiv_spider.py:222) and `closed` (app/spiders/arxiv_spider.py:35-38) run in one transaction. Under MySQL's default REPEATABLE READ isolation, `closed` reads the snapshot taken at the crawl's first existence check, so papers saved during the crawl are usually not handed to the downloader. The model reads the current committed table; transaction isolation is not modelled.
- Column length limits (`String(50)` and so on), `vector_id`, `created_at` and `updated_at` of `paper_downloads`, and the `updated_at` of `papers`.
