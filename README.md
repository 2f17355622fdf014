# movieHub crawl-and-index core in Dafny

This project models the two crawlers of movieHub, `MoviesIndexer`
(indexers/movies.py) and `SeriesIndexer` (indexers/series.py), and proves
properties of the model. Each crawler does four things:

- it walks the pages of a list of download mirrors (`working_index`);
- it reads a year and a display name out of each title's URL, and
  for series a season;
- it classifies every media file it finds by resolution, codec, source
  and bit depth;
- it records the files in a JSON catalog, keeping a `processed_urls` set
  so that no URL is taken twice, and checkpoints its progress.

Files, in dependency order:

| file | models |
|---|---|
| `wrappers.dfy` | `Option` |
| `pystr.dfy` | the Python `str` operations used (`split`, `strip`, `replace`, `in`, `lower`, `upper`, `isdigit`, `int`, `"%02d"`), over ASCII |
| `fetcher.dfy` | `_fetch`: the retry loop against a server given as data, and the page a URL yields |
| `quality.dfy` | `_extract_quality` (the same code in both indexers) |
| `names.dfy` | the year and name rules both path extractors share |
| `catalog.dfy` | the catalog document, the in-memory `indexes` object, the URL sets, the checkpoint, and what a movie crawl keeps |
| `movies.dfy` | `MoviesIndexer`: `_extract_movie_info`, `_load_progress`, `_process_movie`, `create_index` |
| `series.dfy` | `SeriesIndexer`: `_extract_series_info`, `_load_progress`, `_process_series`, `_recursive_fetch`, `create_index` |

How the model stands in for the outside world:

- **The web.** It is a value `server: map<string, seq<Response>>`. For each
  URL it lists the response of each successive GET attempt: an `ok` page
  (its anchors, as `href` and optional `title`), a failing status, or a
  raised exception. A URL that is not in the map always raises.
  `Page(server, url)` is what `_fetch(url)` returns.
- **The save file.** It is the field `file: Option<Document>`, with `None`
  meaning the file does not exist. A ghost log `saves` records every
  document written.
- **`fetchLog`** is a ghost log of every URL passed to `_fetch`, in order.
- **`datetime.now()`** is the parameter `now`.
- **`urljoin`** is a constant function field of `SeriesIndexer`, left
  uninterpreted.

Both indexers are classes whose methods update `processedUrls`, `file`
and the `Progress` object (the `indexes` dictionary) in place. Loops stay
loops.

Each method's contract states the new state, either directly or through a
specification function of the old state:

- `AcceptedFiles`: the files a title page contributes.
- `MergeLeaf` / `MergeAll`: the series merge-by-title.
- `PageLeaves` / `PagePushes`: how a page splits into leaves and
  directories.
- `SeriesInfo` / `MovieInfo`: what the extractors return.
- `Classify`: what the quality classifier returns.

Lemmas then prove what the code promises about those functions.

A whole movie run preserves `Catalog.Advanced`:

- the processed set and every group only grow;
- "every catalog URL is processed" and "no URL repeats in the catalog" are
  preserved;
- the file changes only by saves;
- every save made during the run names a resumed mirror in its checkpoint.

A whole series run preserves `Series.SeriesAdvanced`:

- items only grow;
- every content URL stays processed;
- no group gains a second item for a title;
- the checkpoint is never moved.

Three behaviours of the code are modelled as written:

- **A series year page that fails to load crashes the run.**
  indexers/series.py:209-211 call `find_all` on the `None` that a failed
  fetch returns. `CreateIndex` stops with the outcome
  `FailedPageDereferenced(url)`, and that URL is the last one fetched.
  Every other page that fails to load is skipped with `continue` or
  `return`: the movie root, category, year and title pages
  (indexers/movies.py:188-189, 199-200, 209-210, 130-131), and the series root,
  series and walked pages (indexers/series.py:200-201, 131-132, 152-153).
- **The series checkpoint is never advanced or saved.**
  - `_process_series` never sets `last_processed`.
  - The final `pop` at indexers/series.py:219 is not followed by a save,
    while the movie crawl saves right after its `pop`
    (indexers/movies.py:217-218).
  - So every document a series run saves carries the checkpoint it loaded.
    With no save file, that is `{"index": 2, "series": 0}`.
  - A completed run leaves the file as the last save left it.
- **The file extension stays in a movie's name.** For
  `.../Movie/2016/Example.Movie.Name.1080p.BluRay.mkv`, the name is
  `Example Movie Name   mkv`. indexers/movies.py:68-75 replace the dots
  and remove the release indicators and the year, but nothing removes
  `mkv`.

## Model

| member | source | states |
|---|---|---|
| PyStr.StripSpec | indexers/movies.py:68 | `strip()` is a slice of the string with only whitespace cut off on either side; `Strip`'s own contract says the result has no whitespace at either end |
| PyStr.SplitHasTwoParts | indexers/movies.py:55-57 | `split(sep)` has at least two parts exactly when `sep` occurs in the string |
| PyStr.FindFromSpec | indexers/movies.py:74 | the search finds a position exactly when the pattern occurs at or after the start, and that position is the first occurrence |
| PyStr.DecimalRoundTrip | indexers/series.py:78 | `int(str(n)) == n` |
| PyStr.Format02 | indexers/series.py:78 | `"%02d" % n` is at least two digits, reads back as `n`, is `0` and the digit for `n < 10`, and `str(n)` otherwise |
| Fetcher.FetchWithRetries | indexers/movies.py:41-52 | the loop returns the page and performs the GETs and sleeps that the attempt-by-attempt definition `Run` gives |
| Fetcher.AtMostRetries | indexers/movies.py:42 | `_fetch` issues at most `retries` GET requests |
| Fetcher.RunBounds | indexers/movies.py:42-51 | the attempts from `k` on issue at most `retries - k` GETs, numbered within `k..retries` |
| Fetcher.SleepOnlyAfterRaise | indexers/movies.py:47-51 | every sleep is a 2-second backoff right after a GET that raised and was not the last attempt; a failing status is never followed by a sleep |
| Fetcher.FirstOkWins | indexers/movies.py:42-46 | a page is returned exactly when some attempt got an `ok` response |
| Fetcher.FirstOkPage | indexers/movies.py:45-46 | when attempt `i` is the first `ok` one, its page is returned and it is the last event of the trace |
| Fetcher.ResultFromResponses | indexers/movies.py:46 | a returned page is the page of one of the responses |
| Fetcher.AlwaysRaising | indexers/movies.py:42-52 | a URL that always raises is tried three times with a 2-second sleep between attempts, and gives `None` |
| Fetcher.PageFromServer | indexers/series.py:41-52 | a page `_fetch` returns comes from the server's responses for that URL |
| Quality.FirstMatchSpec | indexers/movies.py:94-112 | an ordered scan picks a token of its list that the text mentions, and picks none exactly when the text mentions none |
| Quality.FirstMatchIsFirst | indexers/movies.py:94-97 | the token picked is the mentioned token of least index in the list: list order decides, not text position |
| Quality.FirstMentioned | indexers/movies.py:94-97 | the `for ... break` scan returns the first mentioned token of the list |
| Quality.ExtractQuality | indexers/movies.py:79-119 | the method computes `Classify`: the four scans, then the `HEVC` and `NF.` overrides |
| Quality.ClassifyRange | indexers/movies.py:80-107 | resolution, codec and source are each `unknown` or a token of their list |
| Quality.OrderedScanDecides | indexers/movies.py:94-117 | the resolution is `unknown` exactly when no resolution is mentioned; `HEVC` forces the codec and `NF.` forces the source; without them, codec and source are the first mentioned token of their list |
| Quality.FirstResolutionWins | indexers/movies.py:87-97 | a text mentioning `720P` gets resolution `720p`, whatever else it mentions |
| Quality.DotNfMentionsNf | indexers/movies.py:116 | the `.NF.` test is subsumed by the `NF.` test |
| Quality.BitDepthNormalised | indexers/movies.py:109-112 | the bit depth is lower-case: `8bit` when `8BIT` is mentioned, else `10bit` when `10BIT` is, else `unknown` |
| Names.LastYearBefore | indexers/movies.py:63-65 | the position of the last 4-digit part among the first `n`, with no year part after it; `None` exactly when there is no year part |
| Names.PathYearSpec | indexers/movies.py:63-65 | the year is `""` exactly when no part is a year, and the name is then `""` too; otherwise the year is the last year part, because the loop never breaks |
| Names.PathName | indexers/movies.py:66-75 | the extracted name has no `.` and no surrounding whitespace |
| Names.IndicatorsNonEmpty | indexers/movies.py:69-71 | the thirteen release indicators are all non-empty |
| Names.RemoveTokensClean | indexers/movies.py:72-73 | removing indicators from a dotless stripped name keeps it dotless and stripped |
| Names.NoDotAfterRemoval | indexers/movies.py:73 | `replace(t, '').strip()` creates no dot |
| Names.CleanName | indexers/movies.py:68-75 | the cleaned name has no `.` and no surrounding whitespace |
| Names.RemoveEach | indexers/movies.py:72-73 | the indicator loop removes the tokens one after the other, stripping after each |
| Names.NormalizeName | indexers/movies.py:66-75 | the clean-up steps compute `CleanName` |
| Names.YearStep | indexers/movies.py:63-75 | one loop turn keeps the year and the name that the parts seen so far determine |
| Catalog.IndexOf | indexers/movies.py:185 | `working_index.index(x)`: the first position holding `x`, and `None` exactly when `x` is not listed |
| Catalog.FreshStart | indexers/movies.py:35 | with no save file the crawl resumes at mirror 2, the head of the working index |
| Catalog.AddToGroup | indexers/movies.py:168-171 | `setdefault(key, []).append(item)`: the item is appended under `key` and every other group is untouched |
| Catalog.AddToGroupUrls | indexers/movies.py:168-172 | appending an item adds exactly its URLs to the catalog's URLs |
| Catalog.AddToGroupUnique | indexers/movies.py:168-171 | appending an internally distinct item with no URL already in the catalog keeps the catalog duplicate-free |
| Catalog.GroupUrlsMember | indexers/movies.py:28-32 | a URL is among a group's URLs exactly when it is the `url` or a `content` entry of one of its items |
| Catalog.AdvancedTrans | indexers/movies.py:185-215 | two crawl steps compose into one over the union of their mirrors |
| Catalog.AppendAdvanced | indexers/movies.py:168-178 | appending an item, moving the checkpoint and saving is a crawl step on the checkpoint's mirror |
| Catalog.FinalSave | indexers/movies.py:217-218 | after a crawl, dropping the checkpoint and saving leaves a covered catalog that only grew, the final document in the file, and every earlier save naming a crawled mirror |
| Catalog.RootsAtStep | indexers/movies.py:185-187 | when the crawl of the next mirror starts by fetching its root, the roots of the mirrors so far stay fetched in order, now including that one |
| Movies.MovieInfoWithoutMarker | indexers/movies.py:55-57 | a URL without `Movie/` gives `('', '')` |
| Movies.MovieInfoSpec | indexers/movies.py:59-77 | the year is `""` exactly when no part after `Movie/` is a 4-digit number, and then the name is `""` too; otherwise the year is the last such part; the name has no dot and no surrounding whitespace |
| Movies.ExtractMovieInfo | indexers/movies.py:54-77 | the extraction loop computes `MovieInfo` |
| Movies.AcceptedSound | indexers/movies.py:139-146 | every recorded file is the `href` of a titled `mkv`/`mp4` link of the page whose URL was not processed before |
| Movies.AcceptedDistinct | indexers/movies.py:143-145 | the recorded content URLs are pairwise distinct |
| Movies.AcceptedComplete | indexers/movies.py:139-146 | every titled media link of the page is recorded unless its URL was already processed |
| Movies.AcceptedItemUnique | indexers/movies.py:139-177 | the item `_process_movie` appends keeps a covered catalog duplicate-free |
| Movies.ScanStateStep | indexers/movies.py:139-153 | one more anchor records its file exactly when it is titled, names a media file and its URL is not yet processed |
| Movies.MoviesIndexer.ContentStep | indexers/movies.py:140-153 | one pass of the content loop keeps the loop state of the anchors seen so far |
| Movies.MoviesIndexer.ScanContent | indexers/movies.py:136-153 | the loop yields the accepted files' URLs and quality entries, and exactly those URLs join `processed_urls` |
| Movies.MoviesIndexer.Fetch | indexers/movies.py:41-52 | the result is `Page(server, url)` and the URL is logged as fetched |
| Movies.MoviesIndexer.SaveProgress | indexers/movies.py:37-39 | the file holds the current document, and it is appended to the save log |
| Movies.MoviesIndexer.AddGroupUrls | indexers/movies.py:29-32 | every item URL and content URL of a group joins `processed_urls` |
| Movies.MoviesIndexer.LoadProgress | indexers/movies.py:24-35 | the document is the saved one, or the fresh document when there is no file; `processed_urls` gains exactly the loaded catalog's URLs |
| Movies.MoviesIndexer.AppendItem | indexers/movies.py:168-171 | the item is appended under its key, and the catalog stays duplicate-free when it was covered |
| Movies.MoviesIndexer.RecordMovie | indexers/movies.py:133-178 | with no new file nothing changes; otherwise the item is appended under `year_title.lower()`, exactly its URLs join `processed_urls`, the checkpoint becomes `{index, movie_url}` and the document is saved |
| Movies.MoviesIndexer.ProcessMovie | indexers/movies.py:121-179 | an untitled tag, a processed title and a failed fetch change nothing; the title page is fetched only when attempted; otherwise as `RecordMovie`; a crawl step on `index` |
| Movies.MoviesIndexer.CrawlYear | indexers/movies.py:207-215 | the year page is fetched first; a failed one changes nothing; a crawl step on `index` |
| Movies.MoviesIndexer.CrawlCategory | indexers/movies.py:196-215 | the category page is fetched first; a failed one changes nothing; a crawl step on `index` |
| Movies.MoviesIndexer.CrawlMirror | indexers/movies.py:186-215 | the mirror root is fetched first; a failed one is skipped; a crawl step on `index` |
| Movies.MoviesIndexer.CrawlFrom | indexers/movies.py:185-215 | the root of every mirror from the resume position to the end of the working index is fetched, in order; the whole loop is a crawl step whose saves name only those mirrors |
| Movies.MoviesIndexer.CrawlNext | indexers/movies.py:185-215 | one turn of the mirror loop fetches the next mirror's root next, which extends the in-order roots by that mirror, and is a crawl step |
| Movies.MoviesIndexer.CreateIndex | indexers/movies.py:181-218 | a checkpoint naming no listed mirror raises before any fetch; otherwise the root of the resumed mirror and of every later one is fetched in order, the checkpoint is dropped and saved, every earlier save names a resumed mirror, and the catalog only grew, stays covered by `processed_urls` and stays duplicate-free |
| Movies.MoviesIndexer.CrawlAndFinish | indexers/movies.py:185-218 | the mirrors from `pos` on are crawled in order, then the checkpoint is dropped and the final document is saved last; the catalog stays covered and duplicate-free |
| Series.SeasonCodeShape | indexers/series.py:75-76 | a season code is `s` or `S` followed by at least one digit and nothing else |
| Series.LoneSNoSeason | indexers/series.py:75 | a lone `s` names no season |
| Series.SeasonOneLabel | indexers/series.py:77-78 | `Season 1` gives `S01` |
| Series.DigitsOfNonEmpty | indexers/series.py:77-78 | a segment with a digit keeps at least one digit to join |
| Series.LastNamedSpec | indexers/series.py:62-79 | the last value wins: `""` exactly when no part maps to a value, otherwise the value of the last part that does |
| Series.SeasonUpToSpec | indexers/series.py:62-79 | the season is `""` exactly when no segment names one, otherwise what the last such segment names |
| Series.SeriesInfoWithoutMarker | indexers/series.py:55-57 | a URL without `Series/` gives `('', '', '')` |
| Series.SeriesInfoSpec | indexers/series.py:54-81 | year and name follow the movie rules, including no name without a year; the season is decided by the last segment naming one |
| Series.ExtractSeriesInfo | indexers/series.py:54-81 | the extraction loop computes `SeriesInfo` |
| Series.FindTitle | indexers/series.py:173 | `next(...)` finds the first item with the title, and `None` exactly when there is none |
| Series.MergeExisting | indexers/series.py:174-176 | a leaf of a held series goes to the first item with that title, which gains exactly that URL and that entry; nothing else changes |
| Series.MergeNew | indexers/series.py:177-188 | the first leaf of a new series adds exactly one item at the end of the group; nothing else changes |
| Series.MergeLeafMerged | indexers/series.py:172-188 | every leaf is a merge step: only the group `key` changes, items only grow, at most one fresh item is added |
| Series.MergeAllMerged | indexers/series.py:156-189 | recording a list of leaves is a merge step, and their URLs join the covering set |
| Series.RecordedGrows | indexers/series.py:172-176 | a URL in the content of an item of the series stays there as the catalog grows |
| Series.MergeLeafRecords | indexers/series.py:172-188 | recording a leaf puts its URL in the content of the first item with the series title, whether it existed or was created |
| Series.MergeAllRecords | indexers/series.py:156-188 | recording a page's leaves puts every one of their URLs in the item of the series |
| Series.MergedUnderTitles | indexers/series.py:172-188 | a merge keeps a group's titles distinct |
| Series.MergedUnderUnique | indexers/series.py:172-188 | a merge keeps every group's titles distinct |
| Series.PageLeavesSpec | indexers/series.py:156-163 | the leaves of a page are exactly its titled `mkv`/`mp4` links, resolved against the page |
| Series.PageLeavesQuality | indexers/series.py:164-170 | every leaf carries the quality read from its resolved URL and `href` |
| Series.PagePushesSpec | indexers/series.py:190-191 | the pushed URLs are exactly the page's other titled links, resolved against the page |
| Series.ScanLinksSpec | indexers/series.py:155-191 | the link loop records the page's leaves in order, adds their URLs to the processed set, and pushes its directories in order |
| Series.UniverseOf | indexers/series.py:145-191 | there is a finite set holding the base and every URL the walk can push, so the walk ends |
| Series.WalkedPop | indexers/series.py:146-148 | the popped URL is in that set, and is the base before the first fetch |
| Series.WalkedVisit | indexers/series.py:150-191 | visiting a new URL keeps the walk invariant and leaves fewer unvisited URLs |
| Series.WalkRecordedVisit | indexers/series.py:150-189 | visiting a page records its leaves, and the leaves of every page visited before stay recorded |
| Series.WalkExactVisit | indexers/series.py:150-191 | visiting a page extends the exact effect of the walk by that page: its leaf URLs join the processed set and its leaves are merged, after those of the pages fetched before |
| Series.WalkUrlsSpec | indexers/series.py:150-189 | a URL is among those the walk adds to `processed_urls` exactly when it is the URL of a leaf of some page the walk fetched |
| Series.OffersLeafSpec | indexers/series.py:155-189 | a URL a page offers is the `full_url` of one of its leaves, and every leaf URL is offered |
| Series.CatalogContentIn | indexers/series.py:28-32 | after loading, every content URL of the catalog is processed |
| Series.SeriesAdvancedTrans | indexers/series.py:197-217 | two series crawl steps compose into one |
| Series.MergeSaveAdvanced | indexers/series.py:136-139 | a merge of one series followed by a save is a series crawl step |
| Series.SeriesIndexer.Fetch | indexers/series.py:41-52 | the result is `Page(server, url)` and the URL is logged as fetched |
| Series.SeriesIndexer.SaveProgress | indexers/series.py:37-39 | the file holds the current document, and it is appended to the save log |
| Series.SeriesIndexer.AddGroupUrls | indexers/series.py:29-32 | every series URL and content URL of a group joins `processed_urls` |
| Series.SeriesIndexer.LoadProgress | indexers/series.py:24-35 | the document is the saved one, or the fresh one; `processed_urls` gains exactly the loaded catalog's URLs |
| Series.SeriesIndexer.RecordLeaf | indexers/series.py:172-188 | the `setdefault` and `next(...)` merge perform `MergeLeaf`, with the new item's URL `urljoin(base_url, series_name)` |
| Series.SeriesIndexer.ScanLink | indexers/series.py:156-191 | one pass: an untitled link is skipped, a media link is recorded and its URL processed, any other titled link is pushed |
| Series.SeriesIndexer.ScanPage | indexers/series.py:155-191 | the link loop pushes `PagePushes`, merges `PageLeaves` and processes exactly the leaf URLs |
| Series.SeriesIndexer.Visit | indexers/series.py:150-191 | the URL is fetched once; a page that fails to load changes nothing; a loaded page pushes exactly its directories, merges exactly its leaves under `year_title.lower()` and processes exactly their URLs, and nothing else joins the processed set or the catalog |
| Series.SeriesIndexer.WalkStep | indexers/series.py:145-191 | a popped URL already visited or processed changes nothing but the stack; any other is fetched and appended to the walk, its page's directories are pushed, exactly its leaves are merged and their URLs processed; the processed set and catalog stay exactly what the walk so far produced, and every walked page stays recorded |
| Series.SeriesIndexer.RecursiveFetch | indexers/series.py:141-191 | the URLs fetched are distinct, none was processed before, the base comes first and is skipped only when processed; the processed set grows by exactly the leaf URLs of the fetched pages, and the catalog is exactly the old one with those pages' leaves merged under `year_title.lower()` in fetch order; every fetched page that loads has its leaves recorded, and content stays processed |
| Series.SeriesIndexer.WalkSeries | indexers/series.py:136-139 | the walk fetches the series URL again, first; the processed set becomes the old one plus exactly the leaf URLs of the walked pages and the series URL, and the catalog is the old one with exactly those leaves merged under `year.lower()`; every walked page has its leaves recorded; the document is saved; a series crawl step |
| Series.SeriesIndexer.ProcessSeries | indexers/series.py:125-139 | a processed URL causes no fetch and no change; a failed page changes nothing; otherwise the page is fetched, then walked from itself: the processed set gains exactly the walked pages' leaf URLs and the series URL, the catalog gains exactly those leaves under the extracted year in lower case in the item of the extracted name, and the document is saved with the checkpoint untouched |
| Series.SeriesIndexer.CrawlYearPage | indexers/series.py:211-217 | every titled anchor of a loaded year page goes to `_process_series`; a series crawl step |
| Series.SeriesIndexer.CrawlYearLink | indexers/series.py:204-217 | an untitled anchor is skipped without a fetch; a titled one fetches `root/href`, and fails exactly when that page does not load, that URL being the last fetched |
| Series.SeriesIndexer.CrawlSeriesMirror | indexers/series.py:197-217 | the series root is fetched first; a failed root is skipped with nothing saved or processed; a failure names a missing year page of a titled anchor of the root, the last URL fetched |
| Series.SeriesIndexer.CrawlFrom | indexers/series.py:197-217 | the roots of the mirrors from the resume position are fetched in order: all of them when no year page fails; otherwise up to the mirror whose root lists the failing year page, which is the last URL fetched |
| Series.SeriesIndexer.CrawlNext | indexers/series.py:197-217 | one turn of the mirror loop fetches the next mirror's root next; a failure is a year page of that mirror |
| Series.SeriesIndexer.CreateIndex | indexers/series.py:193-219 | an unlisted checkpoint raises before any fetch; a completed run fetched the root of the resumed mirror and of every later one in order and drops the checkpoint only in memory; a failed year page ends the run at that URL, after the roots up to its mirror; each save carries the loaded checkpoint; the catalog only grows; content stays processed; titles stay distinct |
| Series.SeriesIndexer.Resume | indexers/series.py:197-219 | the crawl from `pos` either raises at a failed year page, after the roots up to its mirror, or fetches every root from `pos` on in order and drops the checkpoint without a save |

## Left out

- main.py: the process-pool orchestration, timing and the summary log are concurrency and I/O.
- module.py: a top-level prototype script that runs at import time; it is not part of this model.
- HTTP, HTML parsing and `sleep`. They are replaced by the server map. Sleeps appear only as events in the fetch trace. A page is reduced to its anchors.
- A missing `href` attribute: it raises `KeyError` in the code, and every anchor here has one.
- Serialisation of the JSON document: the file holds the document value.
- A saved document lacking its `movies`/`series` key or an item's `content` key: the document type always has both.
- A failing file write: not modelled.
- Logging, the `rich` imports and `print(season)` at indexers/series.py:79: output only.
- `datetime.now()`: a parameter `now`, so every item of one run carries the same value.
- `urljoin`: uninterpreted. Section 5.2 of RFC 3986 is not modelled.
- Unicode: `isdigit`, `isspace`, `lower` and `upper` are modelled over ASCII.
- A server whose answers change over time: every call to `_fetch` for one URL sees the same attempt responses.
- Duplicate-free series `content`: not claimed. The leaf branch appends without consulting `processed_urls`.
- Series.SeriesIndexer.RecursiveFetch: does not state which URLs the walk reaches or in which order; the walk is a ghost result. Given the walk, its effect on the processed set and the catalog is stated exactly.
- Series.SeriesIndexer.CrawlYearPage: states the series crawl invariant, not which series were processed.
- Movies.MoviesIndexer.CrawlYear: states the crawl invariant, not which titles were processed.
- Movies.MoviesIndexer.CrawlCategory: states the crawl invariant, not which year pages were crawled.
- Movies.MoviesIndexer.CrawlMirror: states the crawl invariant, not which category pages were crawled.
- Series.SeriesIndexer.CreateIndex: states no set of crawled mirrors for its saves, because series saves never carry a new checkpoint. That the mirrors are crawled is stated by their roots being fetched in order.
- Movies.MoviesIndexer.CreateIndex: states that each resumed mirror is crawled by its root being fetched, in order, not which of its pages were crawled.
