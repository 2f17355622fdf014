/** `MoviesIndexer` of indexers/movies.py: the fixed-depth crawl
    mirror -> category -> year -> title -> files, where each level's URL is
    the parent URL with the child `href` appended. */
module Movies {
  import opened Wrappers
  import opened PyStr
  import opened Fetcher
  import Quality
  import Names
  import opened Catalog

  // ---------------------------------------------------------------------
  // `_extract_movie_info`
  // ---------------------------------------------------------------------

  /** What `_extract_movie_info(url)` returns. */
  function MovieInfo(url: string): (string, string) {
    match Names.PathParts(url, "Movie/")
    case None => ("", "")
    case Some(parts) => (Names.PathYear(parts), Names.PathName(parts))
  }

  /** A URL without "Movie/" gives `('', '')`. */
  lemma MovieInfoWithoutMarker(url: string)
    requires !Contains(url, "Movie/")
    ensures MovieInfo(url) == ("", "")
  {
    SplitHasTwoParts(url, "Movie/");
  }

  /** For a URL with "Movie/", the year is "" exactly when no path part after
      it is a 4-digit number, and the name is then "" too; otherwise the
      year is the last such part. The name has no dot and no surrounding
      whitespace. */
  lemma MovieInfoSpec(url: string)
    requires Contains(url, "Movie/")
    ensures Names.PathParts(url, "Movie/").Some?
    ensures var parts := Names.PathParts(url, "Movie/").value;
            var (year, name) := MovieInfo(url);
            && '.' !in name && Stripped(name)
            && (year == "" <==> forall j :: 0 <= j < |parts| ==> !Names.IsYear(parts[j]))
            && (year == "" ==> name == "")
            && (year != "" ==> exists i :: 0 <= i < |parts| && parts[i] == year && Names.IsYear(year) &&
                                 forall j :: i < j < |parts| ==> !Names.IsYear(parts[j]))
  {
    SplitHasTwoParts(url, "Movie/");
    Names.PathYearSpec(Names.PathParts(url, "Movie/").value);
  }

  /** `_extract_movie_info` */
  method ExtractMovieInfo(url: string) returns (year: string, movieName: string)
    ensures (year, movieName) == MovieInfo(url)
  {
    var parts := Split(url, "Movie/");
    if |parts| < 2 {
      return "", "";
    }
    var pathParts := Split(parts[1], "/");
    year, movieName := "", "";
    for i := 0 to |pathParts|
      invariant year == Names.YearAt(pathParts, Names.LastYearBefore(pathParts, i))
      invariant movieName == Names.NameAfter(pathParts, Names.LastYearBefore(pathParts, Names.Followed(pathParts, i)))
    {
      year, movieName := Names.YearStep(pathParts, i, year, movieName);
    }
  }

  // ---------------------------------------------------------------------
  // The content scan of `_process_movie`
  // ---------------------------------------------------------------------

  /** The URL `_process_movie` builds for each file `href` of the title page
      at `movieUrl`: `movie_url + href`. */
  function FileUrls(movieUrl: string, hrefs: seq<string>): (urls: seq<string>)
    ensures |urls| == |hrefs|
    ensures forall i :: 0 <= i < |hrefs| ==> urls[i] == movieUrl + hrefs[i]
  {
    seq(|hrefs|, i requires 0 <= i < |hrefs| => movieUrl + hrefs[i])
  }

  /** The `extra_info` entry for the file `href` of the title page at
      `movieUrl`: its URL, its `href` as the filename, and its quality. */
  function DetailFor(movieUrl: string, href: string): QualityDetail {
    var u := movieUrl + href;
    QualityDetail(u, href, Quality.Classify(u, href))
  }

  /** The `extra_info` list for the files `hrefs`, in order. */
  function Details(movieUrl: string, hrefs: seq<string>): (ds: seq<QualityDetail>)
    ensures |ds| == |hrefs|
    ensures forall i :: 0 <= i < |hrefs| ==> ds[i] == DetailFor(movieUrl, hrefs[i])
  {
    seq(|hrefs|, i requires 0 <= i < |hrefs| => DetailFor(movieUrl, hrefs[i]))
  }

  lemma FileUrlsAppend(movieUrl: string, hrefs: seq<string>, href: string)
    ensures FileUrls(movieUrl, hrefs + [href]) == FileUrls(movieUrl, hrefs) + [movieUrl + href]
  {
  }

  lemma DetailsAppend(movieUrl: string, hrefs: seq<string>, href: string)
    ensures Details(movieUrl, hrefs + [href]) == Details(movieUrl, hrefs) + [DetailFor(movieUrl, href)]
  {
  }

  /** The entries' URLs are the files' URLs. */
  lemma DetailsUrls(movieUrl: string, hrefs: seq<string>)
    ensures DetailUrls(Details(movieUrl, hrefs)) == FileUrls(movieUrl, hrefs)
  {
  }

  /** The state of the content loop after the links `links`: the accepted
      files, their URLs and entries, and `processed_urls` grown by the URLs. */
  ghost predicate ScanState(movieUrl: string, links: seq<Link>, seen: set<string>, files: seq<string>,
                            contentUrls: seq<string>, extraInfo: seq<QualityDetail>, processed: set<string>)
  {
    && files == AcceptedFiles(movieUrl, links, seen)
    && contentUrls == FileUrls(movieUrl, files)
    && extraInfo == Details(movieUrl, files)
    && processed == seen + Elements(contentUrls)
  }

  /** The content loop's state after one more link: its file is recorded
      when the link is titled, names a media file and its URL is not yet in
      the processed set, and nothing changes otherwise. */
  lemma ScanStateStep(movieUrl: string, links: seq<Link>, j: nat, seen: set<string>, files: seq<string>,
                      contentUrls: seq<string>, extraInfo: seq<QualityDetail>, processed: set<string>)
    requires j < |links|
    requires ScanState(movieUrl, links[..j], seen, files, contentUrls, extraInfo, processed)
    ensures var l := links[j];
            var u := movieUrl + l.href;
            if Titled(l) && IsMedia(l.href) && u !in processed
            then ScanState(movieUrl, links[..j + 1], seen, files + [l.href], contentUrls + [u],
                           extraInfo + [DetailFor(movieUrl, l.href)], processed + {u})
            else ScanState(movieUrl, links[..j + 1], seen, files, contentUrls, extraInfo, processed)
  {
    var l := links[j];
    var u := movieUrl + l.href;
    AcceptedFilesLast(movieUrl, links, j, seen);
    ElementsMember(contentUrls, u);
    assert u !in processed <==> u !in seen && u !in FileUrls(movieUrl, files);
    if Titled(l) && IsMedia(l.href) && u !in processed {
      ElementsAppend(contentUrls, u);
      FileUrlsAppend(movieUrl, files, l.href);
      DetailsAppend(movieUrl, files, l.href);
    }
  }

  /** `AcceptedFiles` of one more link, unfolded once. */
  lemma AcceptedFilesLast(movieUrl: string, links: seq<Link>, j: nat, seen: set<string>)
    requires j < |links|
    ensures var prev := AcceptedFiles(movieUrl, links[..j], seen);
            var l := links[j];
            var u := movieUrl + l.href;
            AcceptedFiles(movieUrl, links[..j + 1], seen) ==
              if Titled(l) && IsMedia(l.href) && u !in seen && u !in FileUrls(movieUrl, prev)
              then prev + [l.href] else prev
  {
    assert links[..j + 1][..j] == links[..j];
  }

  /** The `href`s of the files `_process_movie` records for a title page with
      `links`, when `seen` is `processed_urls` on entry: every titled link
      whose `href` ends in mkv or mp4 and whose `movie_url + href` was neither
      processed before nor recorded earlier from the same page. */
  function AcceptedFiles(movieUrl: string, links: seq<Link>, seen: set<string>): seq<string>
    decreases |links|
  {
    if links == [] then []
    else
      var prev := AcceptedFiles(movieUrl, links[..|links| - 1], seen);
      var l := links[|links| - 1];
      var u := movieUrl + l.href;
      if Titled(l) && IsMedia(l.href) && u !in seen && u !in FileUrls(movieUrl, prev)
      then prev + [l.href]
      else prev
  }

  /** `href` is the `href` of a titled media link among `links`, and its URL
      was not processed before. */
  predicate FromPage(movieUrl: string, links: seq<Link>, seen: set<string>, href: string) {
    && movieUrl + href !in seen
    && exists j :: 0 <= j < |links| && Titled(links[j]) && IsMedia(links[j].href) && links[j].href == href
  }

  /** Every recorded file comes from a titled media link of the page, and
      none of them was already processed. */
  lemma {:induction false} AcceptedSound(movieUrl: string, links: seq<Link>, seen: set<string>)
    ensures forall h :: h in AcceptedFiles(movieUrl, links, seen) ==> FromPage(movieUrl, links, seen, h)
    decreases |links|
  {
    if links != [] {
      var init := links[..|links| - 1];
      AcceptedSound(movieUrl, init, seen);
      forall h | h in AcceptedFiles(movieUrl, links, seen)
        ensures FromPage(movieUrl, links, seen, h)
      {
        if h in AcceptedFiles(movieUrl, init, seen) {
          assert FromPage(movieUrl, init, seen, h);
          var j :| 0 <= j < |init| && Titled(init[j]) && IsMedia(init[j].href) && init[j].href == h;
          assert links[j] == init[j];
        } else {
          assert h == links[|links| - 1].href;
        }
      }
    }
  }

  /** A recorded file's URL is longer than the title page's URL, so it is
      never the title page itself. */
  lemma FromPageLonger(movieUrl: string, links: seq<Link>, seen: set<string>, href: string)
    requires FromPage(movieUrl, links, seen, href)
    ensures |movieUrl + href| > |movieUrl|
  {
    var j :| 0 <= j < |links| && Titled(links[j]) && IsMedia(links[j].href) && links[j].href == href;
  }

  /** The recorded URLs are pairwise distinct. */
  lemma {:induction false} AcceptedDistinct(movieUrl: string, links: seq<Link>, seen: set<string>)
    ensures Distinct(FileUrls(movieUrl, AcceptedFiles(movieUrl, links, seen)))
    decreases |links|
  {
    if links != [] {
      var init := links[..|links| - 1];
      AcceptedDistinct(movieUrl, init, seen);
      var prev := AcceptedFiles(movieUrl, init, seen);
      var l := links[|links| - 1];
      if AcceptedFiles(movieUrl, links, seen) != prev {
        var urls := FileUrls(movieUrl, prev + [l.href]);
        assert urls == FileUrls(movieUrl, prev) + [movieUrl + l.href];
      }
    }
  }

  /** Every titled media link of the page ends up recorded, unless its URL
      was already processed. */
  lemma {:induction false} AcceptedComplete(movieUrl: string, links: seq<Link>, seen: set<string>)
    ensures forall j :: 0 <= j < |links| && Titled(links[j]) && IsMedia(links[j].href) ==>
              movieUrl + links[j].href in seen ||
              movieUrl + links[j].href in FileUrls(movieUrl, AcceptedFiles(movieUrl, links, seen))
    decreases |links|
  {
    if links != [] {
      var init := links[..|links| - 1];
      var l := links[|links| - 1];
      AcceptedComplete(movieUrl, init, seen);
      var prev := AcceptedFiles(movieUrl, init, seen);
      var urls := FileUrls(movieUrl, AcceptedFiles(movieUrl, links, seen));
      assert forall u :: u in FileUrls(movieUrl, prev) ==> u in urls by {
        if AcceptedFiles(movieUrl, links, seen) != prev {
          assert urls == FileUrls(movieUrl, prev) + [movieUrl + l.href];
        }
      }
      forall j | 0 <= j < |links| && Titled(links[j]) && IsMedia(links[j].href)
        ensures movieUrl + links[j].href in seen || movieUrl + links[j].href in urls
      {
        if j < |init| {
          assert links[j] == init[j];
        } else if movieUrl + l.href !in seen && movieUrl + l.href !in FileUrls(movieUrl, prev) {
          assert urls[|prev|] == movieUrl + l.href;
        }
      }
    }
  }

  /** The item `_process_movie` builds for the title page at `movieUrl`. */
  function MovieItem(movieUrl: string, title: string, files: seq<string>, now: string): Item {
    var info := MovieInfo(movieUrl);
    Item(movieUrl, title, FileUrls(movieUrl, files), info.0, info.1, Details(movieUrl, files), now)
  }

  /** The item `_process_movie` appends keeps the catalog free of
      duplicates, provided the catalog was covered by the processed set: the
      title page and its files are new and pairwise distinct. */
  lemma AcceptedItemUnique(groups: Groups, seen: set<string>, key: string, movieUrl: string,
                           links: seq<Link>, item: Item)
    requires CatalogUrls(groups) <= seen && Unique(groups)
    requires movieUrl !in seen
    requires item.url == movieUrl && item.content == FileUrls(movieUrl, AcceptedFiles(movieUrl, links, seen))
    ensures Unique(AddToGroup(groups, key, item))
  {
    var files := AcceptedFiles(movieUrl, links, seen);
    AcceptedSound(movieUrl, links, seen);
    AcceptedDistinct(movieUrl, links, seen);
    var all := [item.url] + item.content;
    forall i, j | 0 <= i < j < |all|
      ensures all[i] != all[j]
    {
      assert all[j] == item.content[j - 1];
      if i > 0 {
        assert all[i] == item.content[i - 1];
      } else {
        assert files[j - 1] in files;
        FromPageLonger(movieUrl, links, seen, files[j - 1]);
      }
    }
    forall u | u in ItemUrls(item)
      ensures u !in CatalogUrls(groups)
    {
      if u != item.url {
        ElementsMember(item.content, u);
        var p :| 0 <= p < |item.content| && item.content[p] == u;
        assert files[p] in files;
        assert FromPage(movieUrl, links, seen, files[p]);
      }
    }
    AddToGroupUnique(groups, key, item);
  }

  // ---------------------------------------------------------------------
  // The indexer
  // ---------------------------------------------------------------------

  /** The root URL of mirror `index`. */
  function MirrorUrl(index: int): string {
    "https://dl" + MirrorNumber(index) + ".sermoviedown.pw/"
  }

  /** `MoviesIndexer`: the save file, the processed set and the oracle
      standing for the web. */
  class MoviesIndexer {
    /** `self.working_index` */
    const workingIndex: seq<int> := WorkingIndex
    /** The web the crawl sees. */
    const server: Server
    /** `self.processed_urls` */
    var processedUrls: set<string>
    /** The save file: `None` while it does not exist. */
    var file: Option<Document>
    /** Every document written by `_save_progress`, in order. */
    ghost var saves: seq<Document>
    /** Every URL passed to `_fetch`, in order. */
    ghost var fetchLog: seq<string>

    constructor (server: Server, file: Option<Document>)
      ensures this.server == server && this.file == file
      ensures processedUrls == {} && saves == [] && fetchLog == []
    {
      this.server := server;
      this.file := file;
      processedUrls := {};
      saves := [];
      fetchLog := [];
    }

    /** The document `_load_progress` starts from. */
    function Loaded(): Document
      reads this
    {
      if file.None? then FreshDocument else file.value
    }

    /** The state the crawl changes. */
    ghost function State(indexes: Progress): Crawl
      reads this, indexes
    {
      Crawl(processedUrls, indexes.Snapshot(), file, saves)
    }

    /** `_fetch(url)`: three attempts against the server. */
    method Fetch(url: string) returns (soup: Option<seq<Link>>)
      modifies this`fetchLog
      ensures soup == Page(server, url)
      ensures fetchLog == old(fetchLog) + [url]
    {
      var page, trace := FetchWithRetries(ResponsesFor(server, url), Retries);
      fetchLog := fetchLog + [url];
      soup := page;
    }

    /** `_save_progress`: the whole document is written out. */
    method SaveProgress(indexes: Progress)
      modifies this`file, this`saves
      ensures file == Some(indexes.Snapshot())
      ensures saves == old(saves) + [indexes.Snapshot()]
    {
      file := Some(indexes.Snapshot());
      saves := saves + [indexes.Snapshot()];
    }

    /** The two inner loops of `_load_progress` for one group: every item's
        `url` and `content` entries join `processed_urls`. */
    method AddGroupUrls(items: seq<Item>)
      modifies this`processedUrls
      ensures processedUrls == old(processedUrls) + GroupUrls(items)
    {
      for i := 0 to |items|
        invariant processedUrls == old(processedUrls) + GroupUrls(items[..i])
      {
        GroupUrlsPrefix(items, i);
        processedUrls := processedUrls + {items[i].url};
        var content := items[i].content;
        for j := 0 to |content|
          invariant processedUrls == old(processedUrls) + GroupUrls(items[..i]) + {items[i].url} + Elements(content[..j])
        {
          assert content[..j + 1] == content[..j] + [content[j]];
          ElementsAppend(content[..j], content[j]);
          processedUrls := processedUrls + {content[j]};
        }
        assert content[..|content|] == content;
      }
      assert items[..|items|] == items;
    }

    /** `_load_progress`: the saved document, or the fresh one when there is
        no file; every item URL and content URL of a loaded catalog is added
        to `processed_urls`. */
    method LoadProgress() returns (indexes: Progress)
      modifies this`processedUrls
      ensures fresh(indexes)
      ensures indexes.Snapshot() == Loaded()
      ensures processedUrls == old(processedUrls) + CatalogUrls(Loaded().groups)
    {
      if file.None? {
        indexes := new Progress(FreshDocument);
        assert CatalogUrls(FreshDocument.groups) == {};
        return;
      }
      var data := file.value;
      var remaining := data.groups.Keys;
      ghost var done: set<string> := {};
      while remaining != {}
        invariant remaining + done == data.groups.Keys && remaining !! done
        invariant processedUrls == old(processedUrls) + KeysUrls(data.groups, done)
        decreases remaining
      {
        var k :| k in remaining;
        AddGroupUrls(data.groups[k]);
        KeysUrlsAdd(data.groups, done, k);
        remaining, done := remaining - {k}, done + {k};
      }
      assert done == data.groups.Keys;
      indexes := new Progress(data);
    }

    /** The content loop of `_process_movie`: the accepted files of the title
        page, their URLs, which join `processed_urls`, and their quality
        entries. */
    method ScanContent(movieUrl: string, contentResultset: seq<Link>)
      returns (contentUrls: seq<string>, extraInfo: seq<QualityDetail>, ghost files: seq<string>)
      modifies this`processedUrls
      ensures files == AcceptedFiles(movieUrl, contentResultset, old(processedUrls))
      ensures contentUrls == FileUrls(movieUrl, files) && extraInfo == Details(movieUrl, files)
      ensures processedUrls == old(processedUrls) + Elements(contentUrls)
    {
      extraInfo := [];
      contentUrls := [];
      files := [];
      for j := 0 to |contentResultset|
        invariant ScanState(movieUrl, contentResultset[..j], old(processedUrls), files, contentUrls, extraInfo, processedUrls)
      {
        contentUrls, extraInfo, files := ContentStep(movieUrl, contentResultset, j, old(processedUrls), contentUrls, extraInfo, files);
      }
      assert contentResultset[..|contentResultset|] == contentResultset;
    }

    /** One anchor of the content loop: a titled media link whose URL is new
        is recorded, so the loop keeps the state of the links seen so far. */
    method ContentStep(movieUrl: string, links: seq<Link>, j: nat, ghost seen: set<string>,
                       contentUrls: seq<string>, extraInfo: seq<QualityDetail>, ghost files: seq<string>)
      returns (contentUrls': seq<string>, extraInfo': seq<QualityDetail>, ghost files': seq<string>)
      requires j < |links|
      requires ScanState(movieUrl, links[..j], seen, files, contentUrls, extraInfo, processedUrls)
      modifies this`processedUrls
      ensures ScanState(movieUrl, links[..j + 1], seen, files', contentUrls', extraInfo', processedUrls)
    {
      ScanStateStep(movieUrl, links, j, seen, files, contentUrls, extraInfo, processedUrls);
      contentUrls', extraInfo', files' := contentUrls, extraInfo, files;
      var contentTag := links[j];
      if Titled(contentTag) && (EndsWith(contentTag.href, "mkv") || EndsWith(contentTag.href, "mp4")) {
        var contentUrl := movieUrl + contentTag.href;
        if contentUrl !in processedUrls {
          contentUrls' := contentUrls + [contentUrl];
          processedUrls := processedUrls + {contentUrl};
          var qualityInfo := Quality.ExtractQuality(contentUrl, contentTag.href);
          extraInfo' := extraInfo + [QualityDetail(contentUrl, contentTag.href, qualityInfo)];
          files' := files + [contentTag.href];
        }
      }
    }

    /** `_process_movie`: skips a tag without a title attribute, an already
        processed title and a title page that fails to load; otherwise
        records the new media files of the page, and if there is at least
        one, appends the item under `year_title.lower()`, marks the title
        processed, moves the checkpoint to it and saves. */
    method ProcessMovie(yearUrl: string, movieTag: Link, yearTitle: string, indexes: Progress, index: int, now: string)
      modifies this, indexes
      ensures var movieUrl := yearUrl + movieTag.href;
              var attempted := movieTag.title.Some? && movieUrl !in old(processedUrls);
              var files := if attempted && Page(server, movieUrl).Some?
                           then AcceptedFiles(movieUrl, Page(server, movieUrl).value, old(processedUrls)) else [];
              && fetchLog == old(fetchLog) + (if attempted then [movieUrl] else [])
              && (files == [] ==>
                    && processedUrls == old(processedUrls)
                    && indexes.Snapshot() == old(indexes.Snapshot())
                    && file == old(file) && saves == old(saves))
              && (files != [] ==>
                    var item := MovieItem(movieUrl, movieTag.title.value, files, now);
                    && processedUrls == old(processedUrls) + ItemUrls(item)
                    && indexes.groups == AddToGroup(old(indexes.groups), Lower(yearTitle), item)
                    && indexes.lastProcessed == Some(Checkpoint(index, Last(movieUrl)))
                    && file == Some(indexes.Snapshot())
                    && saves == old(saves) + [indexes.Snapshot()])
      ensures Advanced(old(State(indexes)), State(indexes), {index})
    {
      AdvancedRefl(State(indexes), {index});
      if movieTag.title.None? {
        return;
      }
      var movieUrl := yearUrl + movieTag.href;
      if movieUrl in processedUrls {
        return;
      }
      var contentSoup := Fetch(movieUrl);
      if contentSoup.None? {
        return;
      }
      ghost var before := State(indexes);
      RecordMovie(movieUrl, movieTag.title.value, contentSoup.value, yearTitle, indexes, index, now);
      if saves != before.saves {
        var item := MovieItem(movieUrl, movieTag.title.value, AcceptedFiles(movieUrl, contentSoup.value, before.processed), now);
        AppendAdvanced(before, State(indexes), Lower(yearTitle), item, Checkpoint(index, Last(movieUrl)));
      }
    }

    /** The part of `_process_movie` after the title page `links` at
        `movieUrl` has loaded: the content scan, then, when it accepted a
        file, the item is appended, the title joins `processed_urls`, the
        checkpoint moves to it and the document is saved. */
    method RecordMovie(movieUrl: string, title: string, links: seq<Link>, yearTitle: string,
                       indexes: Progress, index: int, now: string)
      modifies this`processedUrls, this`file, this`saves, indexes
      ensures var files := AcceptedFiles(movieUrl, links, old(processedUrls));
              && (files == [] ==>
                    && processedUrls == old(processedUrls)
                    && indexes.Snapshot() == old(indexes.Snapshot())
                    && file == old(file) && saves == old(saves))
              && (files != [] ==>
                    var item := MovieItem(movieUrl, title, files, now);
                    && processedUrls == old(processedUrls) + ItemUrls(item)
                    && indexes.groups == AddToGroup(old(indexes.groups), Lower(yearTitle), item)
                    && indexes.lastProcessed == Some(Checkpoint(index, Last(movieUrl)))
                    && file == Some(indexes.Snapshot())
                    && saves == old(saves) + [indexes.Snapshot()])
      ensures movieUrl !in old(processedUrls) && CatalogUrls(old(indexes.groups)) <= old(processedUrls) &&
                Unique(old(indexes.groups)) ==>
                Unique(indexes.groups)
    {
      var year, movieName := ExtractMovieInfo(movieUrl);
      ghost var seen := processedUrls;
      var contentUrls, extraInfo, files := ScanContent(movieUrl, links);
      if contentUrls != [] {
        var movieData := Item(movieUrl, title, contentUrls, year, movieName, extraInfo, now);
        assert movieData == MovieItem(movieUrl, title, files, now);
        AppendItem(indexes, Lower(yearTitle), movieData, seen, links);
        processedUrls := processedUrls + {movieUrl};
        indexes.lastProcessed := Some(Checkpoint(index, Last(movieUrl)));
        SaveProgress(indexes);
      }
    }

    /** `indexes["movies"].setdefault(key, []).append(item)` for an item
        built from the title page `links` by the content scan. */
    method AppendItem(indexes: Progress, key: string, item: Item, ghost seen: set<string>, ghost links: seq<Link>)
      modifies indexes`groups
      requires item.content == FileUrls(item.url, AcceptedFiles(item.url, links, seen))
      ensures indexes.groups == AddToGroup(old(indexes.groups), key, item)
      ensures item.url !in seen && CatalogUrls(old(indexes.groups)) <= seen && Unique(old(indexes.groups)) ==>
                Unique(indexes.groups)
    {
      if item.url !in seen && CatalogUrls(indexes.groups) <= seen && Unique(indexes.groups) {
        AcceptedItemUnique(indexes.groups, seen, key, item.url, links, item);
      }
      indexes.groups := AddToGroup(indexes.groups, key, item);
    }

    /** The year level of `create_index`: the year page at `yearUrl` is
        fetched, and each of its anchors goes to `_process_movie`. */
    method CrawlYear(yearUrl: string, yearTitle: string, indexes: Progress, index: int, now: string)
      modifies this, indexes
      ensures old(fetchLog) < fetchLog && fetchLog[|old(fetchLog)|] == yearUrl
      ensures Page(server, yearUrl).None? ==> fetchLog == old(fetchLog) + [yearUrl] && State(indexes) == old(State(indexes))
      ensures Advanced(old(State(indexes)), State(indexes), {index})
    {
      ghost var start := State(indexes);
      var yearSoup := Fetch(yearUrl);
      ghost var log := fetchLog;
      if yearSoup.None? {
        return;
      }
      var moviesResultset := yearSoup.value;
      AdvancedRefl(start, {index});
      for c := 0 to |moviesResultset|
        invariant log <= fetchLog
        invariant Advanced(start, State(indexes), {index})
      {
        ghost var before := State(indexes);
        ProcessMovie(yearUrl, moviesResultset[c], yearTitle, indexes, index, now);
        AdvancedTrans(start, before, State(indexes), {index}, {index}, {index});
      }
    }

    /** The category level of `create_index`: the category page at
        `moviePath` is fetched, and each titled anchor on it is a year page. */
    method CrawlCategory(moviePath: string, indexes: Progress, index: int, now: string)
      modifies this, indexes
      ensures old(fetchLog) < fetchLog && fetchLog[|old(fetchLog)|] == moviePath
      ensures Page(server, moviePath).None? ==> fetchLog == old(fetchLog) + [moviePath] && State(indexes) == old(State(indexes))
      ensures Advanced(old(State(indexes)), State(indexes), {index})
    {
      ghost var start := State(indexes);
      var movieSoup := Fetch(moviePath);
      ghost var log := fetchLog;
      if movieSoup.None? {
        return;
      }
      var years := movieSoup.value;
      AdvancedRefl(start, {index});
      for b := 0 to |years|
        invariant log <= fetchLog
        invariant Advanced(start, State(indexes), {index})
      {
        var year := years[b];
        if !Titled(year) {
          continue;
        }
        ghost var before := State(indexes);
        CrawlYear(moviePath + year.href, year.title.value, indexes, index, now);
        AdvancedTrans(start, before, State(indexes), {index}, {index}, {index});
      }
    }

    /** The mirror level of `create_index`: the root page of mirror `index`
        is fetched, and each anchor whose title mentions "movie" is a
        category page. */
    method CrawlMirror(index: int, indexes: Progress, now: string)
      modifies this, indexes
      ensures old(fetchLog) < fetchLog && fetchLog[|old(fetchLog)|] == MirrorUrl(index)
      ensures Page(server, MirrorUrl(index)).None? ==>
                fetchLog == old(fetchLog) + [MirrorUrl(index)] && State(indexes) == old(State(indexes))
      ensures Advanced(old(State(indexes)), State(indexes), {index})
    {
      ghost var start := State(indexes);
      var url := MirrorUrl(index);
      var soup := Fetch(url);
      ghost var log := fetchLog;
      if soup.None? {
        return;
      }
      var links := soup.value;
      AdvancedRefl(start, {index});
      for a := 0 to |links|
        invariant log <= fetchLog
        invariant Advanced(start, State(indexes), {index})
      {
        var link := links[a];
        if !Titled(link) || !Contains(Lower(link.title.value), "movie") {
          continue;
        }
        ghost var before := State(indexes);
        CrawlCategory(url + link.href, indexes, index, now);
        AdvancedTrans(start, before, State(indexes), {index}, {index}, {index});
      }
    }

    /** The mirror loop of `create_index`, from position `pos` of the
        working index to its end: every one of those mirrors is crawled, in
        order, each starting with the fetch of its root. */
    method CrawlFrom(pos: nat, indexes: Progress, now: string)
      requires pos <= |workingIndex|
      modifies this, indexes
      ensures old(fetchLog) <= fetchLog
      ensures RootsFetched(fetchLog, |old(fetchLog)|, workingIndex[pos..], MirrorUrl)
      ensures Advanced(old(State(indexes)), State(indexes), set i | i in workingIndex[pos..])
    {
      ghost var start := State(indexes);
      ghost var resumed := set i | i in workingIndex[pos..];
      ghost var marks: seq<nat> := [];
      AdvancedRefl(start, resumed);
      for m := pos to |workingIndex|
        invariant old(fetchLog) <= fetchLog
        invariant RootsAt(fetchLog, |old(fetchLog)|, workingIndex[pos..][..m - pos], MirrorUrl, marks)
        invariant Advanced(start, State(indexes), resumed)
      {
        assert workingIndex[m] == workingIndex[pos..][m - pos];
        marks := CrawlNext(pos, m, indexes, now, start, resumed, old(fetchLog), marks);
      }
      assert workingIndex[pos..][..|workingIndex| - pos] == workingIndex[pos..];
      assert RootsAt(fetchLog, |old(fetchLog)|, workingIndex[pos..], MirrorUrl, marks);
    }

    /** One turn of the mirror loop: mirror `workingIndex[m]` is crawled,
        which fetches its root next and keeps the crawl invariant. */
    method CrawlNext(pos: nat, m: nat, indexes: Progress, now: string, ghost start: Crawl,
                     ghost resumed: set<int>, ghost log0: seq<string>, ghost marks: seq<nat>)
      returns (ghost marks': seq<nat>)
      requires pos <= m < |workingIndex| && workingIndex[m] in resumed && log0 <= fetchLog
      requires RootsAt(fetchLog, |log0|, workingIndex[pos..][..m - pos], MirrorUrl, marks)
      requires Advanced(start, State(indexes), resumed)
      modifies this, indexes
      ensures log0 <= fetchLog
      ensures RootsAt(fetchLog, |log0|, workingIndex[pos..][..m + 1 - pos], MirrorUrl, marks')
      ensures Advanced(start, State(indexes), resumed)
    {
      var index := workingIndex[m];
      ghost var before, log := State(indexes), fetchLog;
      CrawlMirror(index, indexes, now);
      RootsAtStep(log, fetchLog, |log0|, workingIndex[pos..], m - pos, MirrorUrl, marks);
      marks' := marks + [|log|];
      AdvancedTrans(start, before, State(indexes), resumed, {index}, resumed);
    }

    /** `create_index`: loads the catalog, resumes at the checkpoint's
        mirror, crawls it and every later mirror, then drops the checkpoint
        and saves. A checkpoint naming no listed mirror makes
        `working_index.index` raise before anything is fetched. */
    method CreateIndex(now: string) returns (outcome: Outcome, indexes: Progress)
      modifies this
      ensures fresh(indexes)
      ensures var start := StartIndex(old(Loaded()));
              && outcome == (if start in workingIndex then Completed else StartNotListed(start))
              && (outcome.StartNotListed? ==>
                    && indexes.Snapshot() == old(Loaded()) && file == old(file) && saves == old(saves)
                    && fetchLog == old(fetchLog))
              && (outcome.Completed? ==>
                    var resumed := workingIndex[IndexOf(workingIndex, start).value..];
                    && indexes.lastProcessed == None
                    && file == Some(indexes.Snapshot())
                    && RootsFetched(fetchLog, |old(fetchLog)|, resumed, MirrorUrl)
                    && |saves| > |old(saves)| && saves[|saves| - 1] == indexes.Snapshot()
                    && forall k :: |old(saves)| <= k < |saves| - 1 ==> Checkpointed(saves[k], set i | i in resumed))
      ensures old(processedUrls) <= processedUrls
      ensures Extends(old(Loaded()).groups, indexes.groups)
      ensures CatalogUrls(indexes.groups) <= processedUrls
      ensures Unique(old(Loaded()).groups) ==> Unique(indexes.groups)
    {
      indexes := LoadProgress();
      ghost var start := State(indexes);
      var startIndex := StartIndex(indexes.Snapshot());
      var startPos := IndexOf(workingIndex, startIndex);
      if startPos.None? {
        return StartNotListed(startIndex), indexes;
      }
      CrawlAndFinish(startPos.value, indexes, now);
      outcome := Completed;
    }

    /** The crawl of `create_index` from position `pos` of the working
        index, then `indexes.pop("last_processed", None)` and the final
        save. */
    method CrawlAndFinish(pos: nat, indexes: Progress, now: string)
      requires pos <= |workingIndex| && Covered(State(indexes))
      modifies this, indexes
      ensures RootsFetched(fetchLog, |old(fetchLog)|, workingIndex[pos..], MirrorUrl)
      ensures indexes.lastProcessed == None && file == Some(indexes.Snapshot())
      ensures |saves| > |old(saves)| && saves[|saves| - 1] == indexes.Snapshot()
      ensures forall k :: |old(saves)| <= k < |saves| - 1 ==> Checkpointed(saves[k], set i | i in workingIndex[pos..])
      ensures old(processedUrls) <= processedUrls && Extends(old(indexes.groups), indexes.groups)
      ensures CatalogUrls(indexes.groups) <= processedUrls
      ensures Unique(old(indexes.groups)) ==> Unique(indexes.groups)
    {
      ghost var start := State(indexes);
      CrawlFrom(pos, indexes, now);
      ghost var crawled := State(indexes);
      indexes.lastProcessed := None;
      SaveProgress(indexes);
      FinalSave(start, crawled, State(indexes), set i | i in workingIndex[pos..]);
    }
  }
}
