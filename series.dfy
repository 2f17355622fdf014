/** `SeriesIndexer` of indexers/series.py: mirror -> year -> series, then an
    explicit work-stack walk below each series page in which media links
    are leaves and every other titled link is a directory to visit. */
module Series {
  import opened Wrappers
  import opened PyStr
  import opened Fetcher
  import Quality
  import Names
  import opened Catalog

  // ---------------------------------------------------------------------
  // `_extract_series_info`
  // ---------------------------------------------------------------------

  /** `part.lower().startswith("s") and part[1:].isdigit()` */
  predicate IsSeasonCode(part: string) {
    StartsWith(Lower(part), "s") && IsDigits(part[1..])
  }

  /** `any(c.isdigit() for c in part)` */
  predicate HasDigit(part: string) {
    exists i :: 0 <= i < |part| && IsDigit(part[i])
  }

  /** `"season" in part.lower() and any(c.isdigit() for c in part)` */
  predicate IsSeasonWord(part: string) {
    Contains(Lower(part), "season") && HasDigit(part)
  }

  /** `''.join(c for c in part if c.isdigit())` */
  function DigitsOf(part: string): (ds: string)
    ensures forall i :: 0 <= i < |ds| ==> IsDigit(ds[i])
  {
    if part == [] then []
    else DigitsOf(part[..|part| - 1]) + (if IsDigit(part[|part| - 1]) then [part[|part| - 1]] else [])
  }

  /** A segment with a digit keeps at least one digit. */
  lemma {:induction false} DigitsOfNonEmpty(part: string)
    requires HasDigit(part)
    ensures |DigitsOf(part)| > 0
  {
    var init := part[..|part| - 1];
    if !IsDigit(part[|part| - 1]) {
      var i :| 0 <= i < |part| && IsDigit(part[i]);
      assert init[i] == part[i];
      DigitsOfNonEmpty(init);
    }
  }

  /** `f"S{int(digits):02d}"` for the digits of `part`. */
  function SeasonLabel(part: string): string {
    "S" + Format02(DecimalValue(DigitsOf(part)))
  }

  /** What one path segment says about the season, for a segment that the
      year test has not taken: a code like `S2` is kept verbatim, a segment
      mentioning "season" with a digit becomes `S%02d` of its digits. */
  function SeasonOf(part: string): Option<string> {
    if Names.IsYear(part) then None
    else if IsSeasonCode(part) then Some(part)
    else if IsSeasonWord(part) then Some(SeasonLabel(part))
    else None
  }

  /** What the last of the first `n` parts that `f` maps to a value maps
      to, or "" when there is none. */
  function LastNamed(f: string -> Option<string>, parts: seq<string>, n: nat): string
    requires n <= |parts|
  {
    if n == 0 then ""
    else match f(parts[n - 1])
      case Some(s) => s
      case None => LastNamed(f, parts, n - 1)
  }

  /** The season after the loop has seen the first `n` parts: the last
      segment that names one wins. */
  function SeasonUpTo(parts: seq<string>, n: nat): string
    requires n <= |parts|
  {
    LastNamed(SeasonOf, parts, n)
  }

  /** What `_extract_series_info(url)` returns. */
  function SeriesInfo(url: string): (string, string, string) {
    match Names.PathParts(url, "Series/")
    case None => ("", "", "")
    case Some(parts) => (Names.PathYear(parts), Names.PathName(parts), SeasonUpTo(parts, |parts|))
  }

  /** A season code is an `s` or `S` followed by at least one digit and
      nothing else; a lone `s` is not one. */
  lemma SeasonCodeShape(part: string)
    ensures IsSeasonCode(part) <==>
              |part| >= 2 && (part[0] == 's' || part[0] == 'S') &&
              forall i :: 1 <= i < |part| ==> IsDigit(part[i])
  {
    if |part| >= 1 {
      assert Lower(part)[..1] == [LowerChar(part[0])];
      assert forall i :: 1 <= i < |part| ==> part[1..][i - 1] == part[i];
    }
  }

  /** A segment naming a season names a non-empty one. */
  lemma SeasonOfNonEmpty(part: string)
    requires SeasonOf(part).Some?
    ensures SeasonOf(part).value != ""
  {
  }

  /** When `f` never maps to "", the result is "" exactly when `f` maps
      none of the first `n` parts to a value; otherwise it is the value of
      the last part `f` maps to one. */
  lemma {:induction false} LastNamedSpec(f: string -> Option<string>, parts: seq<string>, n: nat)
    requires n <= |parts|
    requires forall j :: 0 <= j < n && f(parts[j]).Some? ==> f(parts[j]).value != ""
    ensures LastNamed(f, parts, n) == "" <==> forall j :: 0 <= j < n ==> f(parts[j]).None?
    ensures LastNamed(f, parts, n) != "" ==>
              exists i :: 0 <= i < n && f(parts[i]) == Some(LastNamed(f, parts, n)) &&
                          forall j :: i < j < n ==> f(parts[j]).None?
  {
    if n > 0 && f(parts[n - 1]).None? {
      LastNamedSpec(f, parts, n - 1);
      if LastNamed(f, parts, n) != "" {
        var i :| 0 <= i < n - 1 && f(parts[i]) == Some(LastNamed(f, parts, n - 1)) &&
                 forall j :: i < j < n - 1 ==> f(parts[j]).None?;
        assert forall j :: i < j < n ==> f(parts[j]).None?;
      }
    }
  }

  /** The season is "" exactly when no segment among the first `n` names
      one; otherwise it is what the last such segment names. */
  lemma SeasonUpToSpec(parts: seq<string>, n: nat)
    requires n <= |parts|
    ensures SeasonUpTo(parts, n) == "" <==> forall j :: 0 <= j < n ==> SeasonOf(parts[j]).None?
    ensures SeasonUpTo(parts, n) != "" ==>
              exists i :: 0 <= i < n && SeasonOf(parts[i]) == Some(SeasonUpTo(parts, n)) &&
                          forall j :: i < j < n ==> SeasonOf(parts[j]).None?
  {
    forall j | 0 <= j < n && SeasonOf(parts[j]).Some?
      ensures SeasonOf(parts[j]).value != ""
    {
      SeasonOfNonEmpty(parts[j]);
    }
    LastNamedSpec(SeasonOf, parts, n);
  }

  /** `"Season 1"` is a season word and not a season code. */
  lemma SeasonOneIsWord()
    ensures !IsSeasonCode("Season 1") && IsSeasonWord("Season 1")
  {
    var part := "Season 1";
    assert !IsSeasonCode(part) by {
      SeasonCodeShape(part);
      assert !IsDigit(part[1]);
    }
    assert Contains(Lower(part), "season") by {
      var low := Lower(part);
      assert low[0] == 's' && low[1] == 'e' && low[2] == 'a' && low[3] == 's' && low[4] == 'o' && low[5] == 'n';
      assert low[0..6] == "season";
    }
    assert IsDigit(part[7]);
  }

  /** A string without digits has no digits to join. */
  lemma {:induction false} NoDigits(w: string)
    requires forall i :: 0 <= i < |w| ==> !IsDigit(w[i])
    ensures DigitsOf(w) == []
  {
    if w != [] {
      NoDigits(w[..|w| - 1]);
    }
  }

  /** The digits of `w + [c]`, when `c` is the only digit, are `[c]`. */
  lemma DigitsOfLastOnly(w: string, c: char)
    requires forall i :: 0 <= i < |w| ==> !IsDigit(w[i])
    requires IsDigit(c)
    ensures DigitsOf(w + [c]) == [c]
  {
    NoDigits(w);
    assert (w + [c])[..|w|] == w;
  }

  /** The digits of `"Season 1"` make the label `"S01"`. */
  lemma SeasonOneDigits()
    ensures SeasonLabel("Season 1") == "S01"
  {
    assert "Season 1" == "Season " + ['1'];
    DigitsOfLastOnly("Season ", '1');
    assert DecimalValue("1") == 1 by {
      assert "1"[..0] == [];
    }
    assert Format02(1) == "01";
  }

  /** `"Season 1"` gives `"S01"`. */
  lemma SeasonOneLabel()
    ensures SeasonOf("Season 1") == Some("S01")
  {
    SeasonOneIsWord();
    SeasonOneDigits();
  }

  /** A lone `"s"` names no season. */
  lemma LoneSNoSeason()
    ensures SeasonOf("s").None?
  {
    SeasonCodeShape("s");
    assert !Contains(Lower("s"), "season");
  }

  /** Without "Series/" the result is `('', '', '')`. */
  lemma SeriesInfoWithoutMarker(url: string)
    requires !Contains(url, "Series/")
    ensures SeriesInfo(url) == ("", "", "")
  {
    SplitHasTwoParts(url, "Series/");
  }

  /** With "Series/", year and name follow the rules of the movie
      extractor (the last 4-digit segment, and no name without one; a name
      without dots or surrounding whitespace), and the season is "" exactly when no segment
      names one and otherwise what the last such segment names. */
  lemma SeriesInfoSpec(url: string)
    requires Contains(url, "Series/")
    ensures Names.PathParts(url, "Series/").Some?
    ensures var parts := Names.PathParts(url, "Series/").value;
            var (year, name, season) := SeriesInfo(url);
            && '.' !in name && Stripped(name)
            && (year == "" <==> forall j :: 0 <= j < |parts| ==> !Names.IsYear(parts[j]))
            && (year == "" ==> name == "")
            && (year != "" ==> exists i :: 0 <= i < |parts| && parts[i] == year && Names.IsYear(year) &&
                                 forall j :: i < j < |parts| ==> !Names.IsYear(parts[j]))
            && (season == "" <==> forall j :: 0 <= j < |parts| ==> SeasonOf(parts[j]).None?)
            && (season != "" ==> exists i :: 0 <= i < |parts| && SeasonOf(parts[i]) == Some(season) &&
                                   forall j :: i < j < |parts| ==> SeasonOf(parts[j]).None?)
  {
    SplitHasTwoParts(url, "Series/");
    var parts := Names.PathParts(url, "Series/").value;
    Names.PathYearSpec(parts);
    SeasonUpToSpec(parts, |parts|);
  }

  /** `_extract_series_info` */
  method ExtractSeriesInfo(url: string) returns (year: string, seriesName: string, season: string)
    ensures (year, seriesName, season) == SeriesInfo(url)
  {
    var parts := Split(url, "Series/");
    if |parts| < 2 {
      return "", "", "";
    }
    var pathParts := Split(parts[1], "/");
    year, seriesName, season := "", "", "";
    for i := 0 to |pathParts|
      invariant year == Names.YearAt(pathParts, Names.LastYearBefore(pathParts, i))
      invariant seriesName == Names.NameAfter(pathParts, Names.LastYearBefore(pathParts, Names.Followed(pathParts, i)))
      invariant season == SeasonUpTo(pathParts, i)
    {
      var part := pathParts[i];
      year, seriesName := Names.YearStep(pathParts, i, year, seriesName);
      if !(IsDigits(part) && |part| == 4) {
        if StartsWith(Lower(part), "s") && IsDigits(part[1..]) {
          season := part;
        } else if Contains(Lower(part), "season") && HasDigit(part) {
          season := "S" + Format02(DecimalValue(DigitsOf(part)));
        }
      }
    }
  }

  // ---------------------------------------------------------------------
  // The merge of `_recursive_fetch`
  // ---------------------------------------------------------------------

  /** A leaf of the walk: the resolved URL of a titled media link, the
      link's `href`, and the quality read from the two. */
  datatype Leaf = Leaf(url: string, href: string, quality: Quality.Quality)

  /** The `quality_details` entry recorded for a leaf. */
  function LeafDetail(leaf: Leaf): QualityDetail {
    QualityDetail(leaf.url, leaf.href, leaf.quality)
  }

  /** The first position of an item titled `title`:
      `next((s for s in g if s["title"] == title), None)`. */
  function FindTitle(g: seq<Item>, title: string): (r: Option<nat>)
    ensures r.Some? ==> r.value < |g| && g[r.value].title == title &&
                        forall j :: 0 <= j < r.value ==> g[j].title != title
    ensures r.None? <==> forall j :: 0 <= j < |g| ==> g[j].title != title
  {
    if g == [] then None
    else if g[0].title == title then Some(0)
    else match FindTitle(g[1..], title)
      case Some(i) => Some(i + 1)
      case None => None
  }

  /** An existing item with one more leaf: its URL joins `content` and its
      entry joins `quality_details`. */
  function WithLeaf(it: Item, leaf: Leaf): Item {
    it.(content := it.content + [leaf.url], qualityDetails := it.qualityDetails + [LeafDetail(leaf)])
  }

  /** The item created for the first leaf of a series the group does not
      hold yet: its `url` is `urljoin(base_url, series_name)` and its
      extracted year and name are empty. */
  function NewSeriesItem(name: string, itemUrl: string, leaf: Leaf, now: string): Item {
    Item(itemUrl, name, [leaf.url], "", "", [LeafDetail(leaf)], now)
  }

  /** The catalog after one leaf of the series `name` is recorded under
      `key`. */
  function MergeLeaf(groups: Groups, key: string, name: string, itemUrl: string, leaf: Leaf, now: string): Groups {
    var g := GroupOf(groups, key);
    match FindTitle(g, name)
    case Some(i) => groups[key := g[i := WithLeaf(g[i], leaf)]]
    case None => groups[key := g + [NewSeriesItem(name, itemUrl, leaf, now)]]
  }

  /** The catalog after the leaves `leaves` are recorded in order. */
  function MergeAll(groups: Groups, key: string, name: string, itemUrl: string, leaves: seq<Leaf>, now: string): Groups {
    if leaves == [] then groups
    else MergeLeaf(MergeAll(groups, key, name, itemUrl, leaves[..|leaves| - 1], now), key, name, itemUrl, leaves[|leaves| - 1], now)
  }

  /** A leaf of a series the group already holds goes to the FIRST item
      with that title, which gains exactly that URL and that entry;
      nothing else in the catalog changes. */
  lemma MergeExisting(groups: Groups, key: string, name: string, itemUrl: string, leaf: Leaf, now: string, p: nat)
    requires p < |GroupOf(groups, key)| && GroupOf(groups, key)[p].title == name
    requires forall j :: 0 <= j < p ==> GroupOf(groups, key)[j].title != name
    ensures var g := GroupOf(groups, key);
            var r := MergeLeaf(groups, key, name, itemUrl, leaf, now);
            && r.Keys == groups.Keys
            && (forall k :: k in groups && k != key ==> r[k] == groups[k])
            && |r[key]| == |g|
            && r[key][p].content == g[p].content + [leaf.url]
            && r[key][p].qualityDetails == g[p].qualityDetails + [LeafDetail(leaf)]
            && r[key][p] == g[p].(content := r[key][p].content, qualityDetails := r[key][p].qualityDetails)
            && (forall j :: 0 <= j < |g| && j != p ==> r[key][j] == g[j])
  {
    var r := FindTitle(GroupOf(groups, key), name);
    assert r == Some(p);
  }

  /** The first leaf of a series the group does not hold creates exactly
      one new item at the end of the group; nothing else changes. */
  lemma MergeNew(groups: Groups, key: string, name: string, itemUrl: string, leaf: Leaf, now: string)
    requires forall j :: 0 <= j < |GroupOf(groups, key)| ==> GroupOf(groups, key)[j].title != name
    ensures var r := MergeLeaf(groups, key, name, itemUrl, leaf, now);
            && r.Keys == groups.Keys + {key}
            && (forall k :: k in groups && k != key ==> r[k] == groups[k])
            && r[key] == GroupOf(groups, key) + [NewSeriesItem(name, itemUrl, leaf, now)]
  {
  }

  /** Item `y` is item `x` with more leaves: the same identity, and its
      content and quality entries extended by the same number of entries. */
  ghost predicate ItemGrows(x: Item, y: Item) {
    && y.url == x.url && y.title == x.title && y.extractedYear == x.extractedYear
    && y.extractedName == x.extractedName && y.addedDate == x.addedDate
    && x.content <= y.content && x.qualityDetails <= y.qualityDetails
    && |y.content| - |x.content| == |y.qualityDetails| - |x.qualityDetails|
  }

  /** Every group of `a` is in `b`, at least as long, its items grown. */
  ghost predicate Grows(a: Groups, b: Groups) {
    forall k :: k in a ==> k in b && GroupGrows(a[k], b[k])
  }

  /** Group `gb` holds the items of group `ga`, each grown, and maybe more. */
  ghost predicate GroupGrows(ga: seq<Item>, gb: seq<Item>) {
    |ga| <= |gb| && forall i :: 0 <= i < |ga| ==> ItemGrows(ga[i], gb[i])
  }

  lemma GrowsTransitive(a: Groups, b: Groups, c: Groups)
    requires Grows(a, b) && Grows(b, c)
    ensures Grows(a, c)
  {
    forall k, i | k in a && 0 <= i < |a[k]|
      ensures ItemGrows(a[k][i], c[k][i])
    {
      var x, y, z := a[k][i], b[k][i], c[k][i];
      assert x.content == y.content[..|x.content|] && y.content == z.content[..|y.content|];
      assert x.qualityDetails == y.qualityDetails[..|x.qualityDetails|];
      assert y.qualityDetails == z.qualityDetails[..|y.qualityDetails|];
      assert x.content == z.content[..|x.content|];
      assert x.qualityDetails == z.qualityDetails[..|x.qualityDetails|];
    }
  }

  /** `it` was created for the series `name` by a merge. */
  predicate CreatedFor(it: Item, name: string, itemUrl: string, now: string) {
    && it.title == name && it.url == itemUrl && it.extractedYear == "" && it.extractedName == ""
    && it.addedDate == now && |it.content| >= 1 && |it.qualityDetails| == |it.content|
  }

  /** What recording leaves of the series `name` under `key` does to the
      catalog: only group `key` changes; its items only grow; an item
      with another title is untouched; at most one item is added, only
      when no item had the title, and it is a fresh item for the series. */
  ghost predicate MergedUnder(a: Groups, b: Groups, key: string, name: string, itemUrl: string, now: string) {
    && Grows(a, b)
    && b.Keys <= a.Keys + {key}
    && (forall k :: k in a && k != key ==> b[k] == a[k])
    && var ga := GroupOf(a, key);
       var gb := GroupOf(b, key);
       && |ga| <= |gb| <= |ga| + 1
       && (forall i :: 0 <= i < |ga| && ga[i].title != name ==> gb[i] == ga[i])
       && (|gb| > |ga| ==>
             && (forall i :: 0 <= i < |ga| ==> ga[i].title != name)
             && CreatedFor(gb[|ga|], name, itemUrl, now))
  }

  lemma MergedUnderRefl(a: Groups, key: string, name: string, itemUrl: string, now: string)
    ensures MergedUnder(a, a, key, name, itemUrl, now)
  {
  }

  lemma MergedUnderTrans(a: Groups, b: Groups, c: Groups, key: string, name: string, itemUrl: string, now: string)
    requires MergedUnder(a, b, key, name, itemUrl, now) && MergedUnder(b, c, key, name, itemUrl, now)
    ensures MergedUnder(a, c, key, name, itemUrl, now)
  {
    GrowsTransitive(a, b, c);
    var ga, gb, gc := GroupOf(a, key), GroupOf(b, key), GroupOf(c, key);
    if |gb| > |ga| {
      assert gb[|ga|].title == name;
      assert |gc| == |gb|;
      assert key in b;
      assert ItemGrows(gb[|ga|], gc[|ga|]);
    }
    if |gc| > |gb| && |gb| == |ga| && |ga| > 0 {
      assert key in a;
      forall i | 0 <= i < |ga|
        ensures ga[i].title != name
      {
        assert ItemGrows(ga[i], gb[i]);
      }
    }
  }

  /** A leaf for a series the group holds is a merge step. */
  lemma MergeLeafExistingMerged(groups: Groups, key: string, name: string, itemUrl: string, leaf: Leaf, now: string, p: nat)
    requires FindTitle(GroupOf(groups, key), name) == Some(p)
    ensures MergedUnder(groups, MergeLeaf(groups, key, name, itemUrl, leaf, now), key, name, itemUrl, now)
  {
    var g := GroupOf(groups, key);
    var r := MergeLeaf(groups, key, name, itemUrl, leaf, now);
    MergeExisting(groups, key, name, itemUrl, leaf, now, p);
    assert ItemGrows(g[p], r[key][p]);
    assert forall i :: 0 <= i < |g| ==> ItemGrows(g[i], r[key][i]);
  }

  /** A leaf for a series the group does not hold is a merge step. */
  lemma MergeLeafNewMerged(groups: Groups, key: string, name: string, itemUrl: string, leaf: Leaf, now: string)
    requires FindTitle(GroupOf(groups, key), name).None?
    ensures MergedUnder(groups, MergeLeaf(groups, key, name, itemUrl, leaf, now), key, name, itemUrl, now)
  {
    var g := GroupOf(groups, key);
    var r := MergeLeaf(groups, key, name, itemUrl, leaf, now);
    MergeNew(groups, key, name, itemUrl, leaf, now);
    assert forall i :: 0 <= i < |g| ==> r[key][i] == g[i];
  }

  /** One leaf is a merge step. */
  lemma MergeLeafMerged(groups: Groups, key: string, name: string, itemUrl: string, leaf: Leaf, now: string)
    ensures MergedUnder(groups, MergeLeaf(groups, key, name, itemUrl, leaf, now), key, name, itemUrl, now)
  {
    match FindTitle(GroupOf(groups, key), name)
    case Some(p) => MergeLeafExistingMerged(groups, key, name, itemUrl, leaf, now, p);
    case None => MergeLeafNewMerged(groups, key, name, itemUrl, leaf, now);
  }

  /** Every content URL of the catalog is in `s`. */
  ghost predicate ContentIn(groups: Groups, s: set<string>) {
    forall k, i :: k in groups && 0 <= i < |groups[k]| ==> Elements(groups[k][i].content) <= s
  }

  /** A recorded leaf URL joins the set that covers the content. */
  lemma MergeLeafCovered(groups: Groups, key: string, name: string, itemUrl: string, leaf: Leaf, now: string, s: set<string>)
    requires ContentIn(groups, s)
    ensures ContentIn(MergeLeaf(groups, key, name, itemUrl, leaf, now), s + {leaf.url})
  {
    var g := GroupOf(groups, key);
    var r := MergeLeaf(groups, key, name, itemUrl, leaf, now);
    match FindTitle(g, name)
    case Some(p) =>
      ElementsAppend(g[p].content, leaf.url);
    case None =>
      ElementsAppend([], leaf.url);
  }

  /** The URLs of a list of leaves. */
  function LeafUrls(leaves: seq<Leaf>): seq<string> {
    if leaves == [] then [] else LeafUrls(leaves[..|leaves| - 1]) + [leaves[|leaves| - 1].url]
  }

  /** Recording a list of leaves is a merge step, and their URLs join the
      covering set. */
  lemma {:induction false} MergeAllMerged(groups: Groups, key: string, name: string, itemUrl: string,
                                          leaves: seq<Leaf>, now: string, s: set<string>)
    ensures MergedUnder(groups, MergeAll(groups, key, name, itemUrl, leaves, now), key, name, itemUrl, now)
    ensures ContentIn(groups, s) ==>
              ContentIn(MergeAll(groups, key, name, itemUrl, leaves, now), s + Elements(LeafUrls(leaves)))
  {
    if leaves == [] {
      MergedUnderRefl(groups, key, name, itemUrl, now);
      assert s + Elements([]) == s;
    } else {
      var init := leaves[..|leaves| - 1];
      var leaf := leaves[|leaves| - 1];
      var mid := MergeAll(groups, key, name, itemUrl, init, now);
      MergeAllMerged(groups, key, name, itemUrl, init, now, s);
      MergeLeafMerged(mid, key, name, itemUrl, leaf, now);
      MergedUnderTrans(groups, mid, MergeAll(groups, key, name, itemUrl, leaves, now), key, name, itemUrl, now);
      if ContentIn(groups, s) {
        MergeLeafCovered(mid, key, name, itemUrl, leaf, now, s + Elements(LeafUrls(init)));
        ElementsAppend(LeafUrls(init), leaf.url);
      }
    }
  }

  /** Group `key` holds an item titled `name` whose content holds `url`. */
  ghost predicate Recorded(groups: Groups, key: string, name: string, url: string) {
    && key in groups
    && exists i :: 0 <= i < |groups[key]| && groups[key][i].title == name && url in groups[key][i].content
  }

  /** A recorded URL stays recorded as the catalog grows. */
  lemma RecordedGrows(a: Groups, b: Groups, key: string, name: string, url: string)
    requires Recorded(a, key, name, url) && Grows(a, b)
    ensures Recorded(b, key, name, url)
  {
    var i :| 0 <= i < |a[key]| && a[key][i].title == name && url in a[key][i].content;
    assert ItemGrows(a[key][i], b[key][i]);
    var c := a[key][i].content;
    var p :| 0 <= p < |c| && c[p] == url;
    assert b[key][i].content[p] == url;
  }

  /** Recording a leaf puts its URL in the item of its series. */
  lemma MergeLeafRecords(groups: Groups, key: string, name: string, itemUrl: string, leaf: Leaf, now: string)
    ensures Recorded(MergeLeaf(groups, key, name, itemUrl, leaf, now), key, name, leaf.url)
  {
    var g: seq<Item> := GroupOf(groups, key);
    var r: Groups := MergeLeaf(groups, key, name, itemUrl, leaf, now);
    match FindTitle(g, name)
    case Some(p) =>
      assert r[key][p].content == g[p].content + [leaf.url];
      assert leaf.url in r[key][p].content;
    case None =>
      var n := |g|;
      assert r[key][n] == NewSeriesItem(name, itemUrl, leaf, now);
      assert leaf.url in r[key][n].content;
  }

  /** Recording a list of leaves puts every one of their URLs in the item
      of their series. */
  lemma {:induction false} MergeAllRecords(groups: Groups, key: string, name: string, itemUrl: string,
                                           leaves: seq<Leaf>, now: string)
    ensures forall j :: 0 <= j < |leaves| ==>
              Recorded(MergeAll(groups, key, name, itemUrl, leaves, now), key, name, leaves[j].url)
  {
    if leaves != [] {
      var init, leaf := leaves[..|leaves| - 1], leaves[|leaves| - 1];
      var mid := MergeAll(groups, key, name, itemUrl, init, now);
      var all := MergeAll(groups, key, name, itemUrl, leaves, now);
      MergeAllRecords(groups, key, name, itemUrl, init, now);
      MergeLeafRecords(mid, key, name, itemUrl, leaf, now);
      MergeLeafMerged(mid, key, name, itemUrl, leaf, now);
      forall j | 0 <= j < |init|
        ensures Recorded(all, key, name, leaves[j].url)
      {
        assert init[j] == leaves[j];
        RecordedGrows(mid, all, key, name, leaves[j].url);
      }
    }
  }

  /** Within a group whose titles are distinct, a merge keeps them
      distinct: a series is never split over two items. */
  lemma MergedUnderTitles(a: Groups, b: Groups, key: string, name: string, itemUrl: string, now: string)
    requires MergedUnder(a, b, key, name, itemUrl, now)
    requires UniqueTitles(GroupOf(a, key))
    ensures UniqueTitles(GroupOf(b, key))
  {
    var ga, gb := GroupOf(a, key), GroupOf(b, key);
    if |ga| > 0 {
      assert key in a;
      assert forall i :: 0 <= i < |ga| ==> ItemGrows(ga[i], gb[i]);
    }
  }

  /** No two items of `g` have the same title. */
  predicate UniqueTitles(g: seq<Item>) {
    forall i, j :: 0 <= i < j < |g| ==> g[i].title != g[j].title
  }

  // ---------------------------------------------------------------------
  // One page of `_recursive_fetch`
  // ---------------------------------------------------------------------

  /** The leaf for the media link `href` resolved to `url`. */
  function PageLeaf(url: string, href: string): Leaf {
    Leaf(url, href, Quality.Classify(url, href))
  }

  /** The leaves of the page at `current`: the titled links whose `href`
      ends in mkv or mp4, resolved against `current`, in page order. */
  function PageLeaves(join: (string, string) -> string, current: string, links: seq<Link>): seq<Leaf> {
    if links == [] then []
    else
      var prev := PageLeaves(join, current, links[..|links| - 1]);
      var l := links[|links| - 1];
      if Titled(l) && IsMedia(l.href) then prev + [PageLeaf(join(current, l.href), l.href)] else prev
  }

  /** The directories of the page at `current`: every other titled link,
      resolved against `current`, in page order. */
  function PagePushes(join: (string, string) -> string, current: string, links: seq<Link>): seq<string> {
    if links == [] then []
    else
      var prev := PagePushes(join, current, links[..|links| - 1]);
      var l := links[|links| - 1];
      if Titled(l) && !IsMedia(l.href) then prev + [join(current, l.href)] else prev
  }

  /** Every titled media link of the page is a leaf, and every leaf comes
      from one: untitled links are ignored. */
  lemma {:induction false} PageLeavesSpec(join: (string, string) -> string, current: string, links: seq<Link>)
    ensures forall j :: 0 <= j < |links| && Titled(links[j]) && IsMedia(links[j].href) ==>
              exists leaf :: leaf in PageLeaves(join, current, links) &&
                             leaf.url == join(current, links[j].href) && leaf.href == links[j].href
    ensures forall leaf :: leaf in PageLeaves(join, current, links) ==>
              exists j :: 0 <= j < |links| && Titled(links[j]) && IsMedia(links[j].href) &&
                          leaf.url == join(current, links[j].href) && leaf.href == links[j].href
  {
    if links != [] {
      var init := links[..|links| - 1];
      PageLeavesSpec(join, current, init);
      assert forall j :: 0 <= j < |init| ==> links[j] == init[j];
      var l := links[|links| - 1];
      if Titled(l) && IsMedia(l.href) {
        var leaf := PageLeaves(join, current, links)[|PageLeaves(join, current, links)| - 1];
        assert leaf.url == join(current, l.href) && leaf.href == l.href;
      }
    }
  }

  /** Every leaf carries the quality read from its URL and `href`. */
  lemma {:induction false} PageLeavesQuality(join: (string, string) -> string, current: string, links: seq<Link>)
    ensures forall leaf :: leaf in PageLeaves(join, current, links) ==> leaf == PageLeaf(leaf.url, leaf.href)
  {
    if links != [] {
      PageLeavesQuality(join, current, links[..|links| - 1]);
    }
  }

  /** Every other titled link of the page is a directory to visit, and
      every directory comes from one. */
  lemma {:induction false} PagePushesSpec(join: (string, string) -> string, current: string, links: seq<Link>)
    ensures forall j :: 0 <= j < |links| && Titled(links[j]) && !IsMedia(links[j].href) ==>
              join(current, links[j].href) in PagePushes(join, current, links)
    ensures forall u :: u in PagePushes(join, current, links) ==>
              exists j :: 0 <= j < |links| && Titled(links[j]) && !IsMedia(links[j].href) &&
                          u == join(current, links[j].href)
  {
    if links != [] {
      var init := links[..|links| - 1];
      PagePushesSpec(join, current, init);
      assert forall j :: 0 <= j < |init| ==> links[j] == init[j];
    }
  }

  /** One more link of the page adds at most one leaf or one directory. */
  lemma PageStep(join: (string, string) -> string, current: string, links: seq<Link>, j: nat)
    requires j < |links|
    ensures var l := links[j];
            && PageLeaves(join, current, links[..j + 1]) ==
                 PageLeaves(join, current, links[..j]) +
                 (if Titled(l) && IsMedia(l.href) then [PageLeaf(join(current, l.href), l.href)] else [])
            && PagePushes(join, current, links[..j + 1]) ==
                 PagePushes(join, current, links[..j]) +
                 (if Titled(l) && !IsMedia(l.href) then [join(current, l.href)] else [])
  {
    assert links[..j + 1][..j] == links[..j];
  }

  /** Recording one more leaf is one more `MergeLeaf`, and its URL the last
      of the leaf URLs. */
  lemma MergeAllAppend(groups: Groups, key: string, name: string, itemUrl: string,
                       leaves: seq<Leaf>, leaf: Leaf, now: string)
    ensures MergeAll(groups, key, name, itemUrl, leaves + [leaf], now) ==
              MergeLeaf(MergeAll(groups, key, name, itemUrl, leaves, now), key, name, itemUrl, leaf, now)
    ensures LeafUrls(leaves + [leaf]) == LeafUrls(leaves) + [leaf.url]
  {
    assert (leaves + [leaf])[..|leaves|] == leaves;
  }

  /** The state after one more link of the page, given the state before. */
  lemma ScanStep(groups: Groups, key: string, name: string, itemUrl: string, now: string,
                 join: (string, string) -> string, current: string, links: seq<Link>, j: nat)
    requires j < |links|
    ensures var l := links[j];
            var leaves := PageLeaves(join, current, links[..j]);
            var next := PageLeaves(join, current, links[..j + 1]);
            && (Titled(l) && IsMedia(l.href) ==>
                  && MergeAll(groups, key, name, itemUrl, next, now) ==
                       MergeLeaf(MergeAll(groups, key, name, itemUrl, leaves, now), key, name, itemUrl,
                                 PageLeaf(join(current, l.href), l.href), now)
                  && Elements(LeafUrls(next)) == Elements(LeafUrls(leaves)) + {join(current, l.href)})
            && (!(Titled(l) && IsMedia(l.href)) ==> next == leaves)
            && PagePushes(join, current, links[..j + 1]) ==
                 PagePushes(join, current, links[..j]) +
                 (if Titled(l) && !IsMedia(l.href) then [join(current, l.href)] else [])
  {
    PageStep(join, current, links, j);
    var l := links[j];
    var leaves := PageLeaves(join, current, links[..j]);
    if Titled(l) && IsMedia(l.href) {
      var leaf := PageLeaf(join(current, l.href), l.href);
      MergeAllAppend(groups, key, name, itemUrl, leaves, leaf, now);
      ElementsAppend(LeafUrls(leaves), leaf.url);
    }
  }

  /** What the link loop of `_recursive_fetch` works on: the catalog, the
      processed set and the stack. */
  datatype Scan = Scan(groups: Groups, processed: set<string>, stack: seq<string>)

  /** One pass of the link loop over `link` on the page at `current`. */
  function LinkStep(sc: Scan, key: string, name: string, itemUrl: string, now: string,
                    join: (string, string) -> string, current: string, link: Link): Scan {
    if !Titled(link) then sc
    else
      var full := join(current, link.href);
      if IsMedia(link.href) then
        Scan(MergeLeaf(sc.groups, key, name, itemUrl, PageLeaf(full, link.href), now), sc.processed + {full}, sc.stack)
      else Scan(sc.groups, sc.processed, sc.stack + [full])
  }

  /** The link loop over `links`, one pass after the other. */
  function ScanLinks(sc: Scan, key: string, name: string, itemUrl: string, now: string,
                     join: (string, string) -> string, current: string, links: seq<Link>): Scan {
    if links == [] then sc
    else LinkStep(ScanLinks(sc, key, name, itemUrl, now, join, current, links[..|links| - 1]),
                  key, name, itemUrl, now, join, current, links[|links| - 1])
  }

  /** The state the link loop over `links` should reach from `sc`: the
      page's leaves recorded in order, their URLs added to the processed set
      and the page's directories pushed in order. */
  function PageScan(sc: Scan, key: string, name: string, itemUrl: string, now: string,
                    join: (string, string) -> string, current: string, links: seq<Link>): Scan {
    var leaves := PageLeaves(join, current, links);
    Scan(MergeAll(sc.groups, key, name, itemUrl, leaves, now),
         sc.processed + Elements(LeafUrls(leaves)),
         sc.stack + PagePushes(join, current, links))
  }

  /** One more pass of the link loop keeps it at `PageScan`. */
  lemma PageScanStep(sc: Scan, key: string, name: string, itemUrl: string, now: string,
                     join: (string, string) -> string, current: string, links: seq<Link>, j: nat)
    requires j < |links|
    ensures LinkStep(PageScan(sc, key, name, itemUrl, now, join, current, links[..j]),
                     key, name, itemUrl, now, join, current, links[j]) ==
            PageScan(sc, key, name, itemUrl, now, join, current, links[..j + 1])
  {
    ScanStep(sc.groups, key, name, itemUrl, now, join, current, links, j);
    var l := links[j];
    var pre, post := links[..j], links[..j + 1];
    if Titled(l) && IsMedia(l.href) {
      assert sc.processed + Elements(LeafUrls(PageLeaves(join, current, post))) ==
             sc.processed + Elements(LeafUrls(PageLeaves(join, current, pre))) + {join(current, l.href)};
    } else if Titled(l) {
      assert sc.stack + PagePushes(join, current, post) ==
             sc.stack + PagePushes(join, current, pre) + [join(current, l.href)];
    } else {
      assert PagePushes(join, current, post) == PagePushes(join, current, pre) + [];
    }
  }

  /** The link loop over a page records the page's leaves in order, adds
      their URLs to the processed set and pushes the page's directories in
      order. */
  lemma {:induction false} ScanLinksSpec(sc: Scan, key: string, name: string, itemUrl: string, now: string,
                                         join: (string, string) -> string, current: string, links: seq<Link>)
    ensures ScanLinks(sc, key, name, itemUrl, now, join, current, links) ==
            PageScan(sc, key, name, itemUrl, now, join, current, links)
  {
    if links == [] {
      assert sc.processed + Elements([]) == sc.processed;
      assert sc.stack + [] == sc.stack;
    } else {
      var j := |links| - 1;
      assert links[..j + 1] == links;
      ScanLinksSpec(sc, key, name, itemUrl, now, join, current, links[..j]);
      PageScanStep(sc, key, name, itemUrl, now, join, current, links, j);
    }
  }

  // ---------------------------------------------------------------------
  // The crawl
  // ---------------------------------------------------------------------

  /** The series root of mirror `index`:
      `f"https://dl{index}.sermoviedown.pw/Series"`. */
  function SeriesRoot(index: int): string {
    "https://dl" + MirrorNumber(index) + ".sermoviedown.pw/Series"
  }

  /** `universe` holds the resolution of every anchor of every page the
      server serves. */
  ghost predicate Closed(server: Server, join: (string, string) -> string, universe: set<string>) {
    forall p, l :: Page(server, p).Some? && l in Page(server, p).value ==> join(p, l.href) in universe
  }

  /** A finite set of URLs holding `baseUrl` and the resolution of every
      anchor of every page the server can serve against that page's URL:
      every URL the walk below `baseUrl` can push, so the walk ends. */
  lemma UniverseOf(server: Server, join: (string, string) -> string, baseUrl: string)
    returns (universe: set<string>)
    ensures baseUrl in universe
    ensures Closed(server, join, universe)
  {
    universe := {baseUrl} + set u, r, l | u in server.Keys && r in server[u] && r.Ok? && l in r.links :: join(u, l.href);
    forall p, l | Page(server, p).Some? && l in Page(server, p).value
      ensures join(p, l.href) in universe
    {
      PageFromServer(server, p);
      var r := Ok(Page(server, p).value);
      assert p in server.Keys && r in server[p] && r.Ok? && l in r.links;
    }
  }

  /** The directories of a page the server serves are in the universe. */
  lemma PushesBounded(server: Server, join: (string, string) -> string, universe: set<string>,
                      current: string, links: seq<Link>)
    requires Page(server, current) == Some(links)
    requires Closed(server, join, universe)
    ensures forall u :: u in PagePushes(join, current, links) ==> u in universe
  {
    PagePushesSpec(join, current, links);
    forall u | u in PagePushes(join, current, links)
      ensures u in universe
    {
      var j :| 0 <= j < |links| && Titled(links[j]) && !IsMedia(links[j].href) && u == join(current, links[j].href);
      assert links[j] in Page(server, current).value;
    }
  }

  /** The invariant of the walk of `_recursive_fetch` from `baseUrl` over
      the URLs of `universe`, started with processed set `p0` and catalog
      `g0`: `visited` is the set of the fetched `walk`, which repeats no URL
      and holds none of `p0`; the stack holds URLs of `universe`; before the
      first fetch the stack is the base alone, or empty when the base was
      processed, and nothing changed; the walk starts at the base; the
      processed set only grows and the catalog changed only by merges of
      `name` under `key`, keeping every recorded URL processed. */
  ghost predicate Walked(universe: set<string>, baseUrl: string, p0: set<string>, g0: Groups, key: string,
                         name: string, itemUrl: string, now: string, stack: seq<string>, visited: set<string>,
                         walk: seq<string>, processed: set<string>, groups: Groups) {
    && visited == Elements(walk) && Distinct(walk) && visited <= universe
    && (forall i :: 0 <= i < |walk| ==> walk[i] !in p0)
    && (forall k :: 0 <= k < |stack| ==> stack[k] in universe)
    && (walk == [] ==>
          && (stack == [baseUrl] || (stack == [] && baseUrl in p0))
          && processed == p0 && groups == g0)
    && (walk != [] ==> walk[0] == baseUrl)
    && p0 <= processed
    && MergedUnder(g0, groups, key, name, itemUrl, now)
    && (ContentIn(g0, p0) ==> ContentIn(groups, processed))
  }

  /** The popped URL is of `universe`, and the base before the first
      fetch; popping keeps the walk invariant unless it is the base before
      the first fetch and the base was not processed. */
  lemma WalkedPop(universe: set<string>, baseUrl: string, p0: set<string>, g0: Groups, key: string,
                  name: string, itemUrl: string, now: string, stack: seq<string>, visited: set<string>,
                  walk: seq<string>, processed: set<string>, groups: Groups)
    requires stack != []
    requires Walked(universe, baseUrl, p0, g0, key, name, itemUrl, now, stack, visited, walk, processed, groups)
    ensures stack[|stack| - 1] in universe
    ensures walk == [] ==> stack[|stack| - 1] == baseUrl
    ensures walk != [] || stack[|stack| - 1] in processed ==>
              Walked(universe, baseUrl, p0, g0, key, name, itemUrl, now, stack[..|stack| - 1], visited, walk,
                     processed, groups)
  {
    if walk == [] {
      assert stack == [baseUrl];
    }
    assert forall k :: 0 <= k < |stack| - 1 ==> stack[..|stack| - 1][k] == stack[k];
  }

  /** A fetch log holding `walk` after `log0` holds `walk + [url]` after
      `log0` once `url` is fetched. */
  lemma LogExtends(log0: seq<string>, walk: seq<string>, url: string)
    ensures log0 + walk + [url] == log0 + (walk + [url])
  {
  }

  /** A log extended by a walk from `url` holds `url` right after the old
      log. */
  lemma LogStartsWith(log0: seq<string>, walk: seq<string>, url: string)
    requires walk != [] && walk[0] == url
    ensures log0 < log0 + walk && (log0 + walk)[|log0|] == url
  {
  }

  /** Visiting a URL of `universe` that is neither visited nor processed
      extends the walk by it and keeps the walk invariant, when the visit
      pushes only URLs of `universe`, grows the processed set and merges
      `name` under `key`, keeping every recorded URL processed. */
  lemma WalkedVisit(universe: set<string>, baseUrl: string, p0: set<string>, g0: Groups, key: string,
                    name: string, itemUrl: string, now: string, stack: seq<string>, visited: set<string>,
                    walk: seq<string>, processed: set<string>, groups: Groups,
                    url: string, stack': seq<string>, processed': set<string>, groups': Groups)
    requires Walked(universe, baseUrl, p0, g0, key, name, itemUrl, now, stack, visited, walk, processed, groups)
    requires url in universe && url !in visited && url !in processed
    requires walk == [] ==> url == baseUrl
    requires forall k :: 0 <= k < |stack'| ==> stack'[k] in universe
    requires processed <= processed'
    requires MergedUnder(groups, groups', key, name, itemUrl, now)
    requires ContentIn(groups, processed) ==> ContentIn(groups', processed')
    ensures Walked(universe, baseUrl, p0, g0, key, name, itemUrl, now, stack', visited + {url}, walk + [url],
                   processed', groups')
    ensures |universe - (visited + {url})| < |universe - visited|
  {
    DistinctAppend(walk, url);
    ElementsAppend(walk, url);
    MergedUnderTrans(g0, groups, groups', key, name, itemUrl, now);
    assert universe - (visited + {url}) == (universe - visited) - {url};
  }

  /** The page at `url`, when it loads, has every one of its leaves
      recorded in the item of the series `name` under `key`. */
  ghost predicate PageRecorded(server: Server, join: (string, string) -> string, url: string,
                               groups: Groups, key: string, name: string) {
    Page(server, url).Some? ==>
      forall l :: l in PageLeaves(join, url, Page(server, url).value) ==> Recorded(groups, key, name, l.url)
  }

  /** Every page of `walk` that loads has its leaves recorded. */
  ghost predicate WalkRecorded(server: Server, join: (string, string) -> string, walk: seq<string>,
                               groups: Groups, key: string, name: string) {
    forall i :: 0 <= i < |walk| ==> PageRecorded(server, join, walk[i], groups, key, name)
  }

  /** Visiting `url`, which records the leaves of its page when it loads
      and changes nothing otherwise, keeps every walked page recorded and
      records the page of `url`. */
  lemma WalkRecordedVisit(server: Server, join: (string, string) -> string, walk: seq<string>, url: string,
                          a: Groups, b: Groups, key: string, name: string, itemUrl: string, now: string)
    requires WalkRecorded(server, join, walk, a, key, name)
    requires Page(server, url).Some? ==> b == MergeAll(a, key, name, itemUrl, PageLeaves(join, url, Page(server, url).value), now)
    requires Page(server, url).None? ==> b == a
    ensures WalkRecorded(server, join, walk + [url], b, key, name)
  {
    if Page(server, url).Some? {
      var leaves := PageLeaves(join, url, Page(server, url).value);
      MergeAllMerged(a, key, name, itemUrl, leaves, now, {});
      MergeAllRecords(a, key, name, itemUrl, leaves, now);
      forall i, l | 0 <= i < |walk| && Page(server, walk[i]).Some? &&
                    l in PageLeaves(join, walk[i], Page(server, walk[i]).value)
        ensures Recorded(b, key, name, l.url)
      {
        assert PageRecorded(server, join, walk[i], a, key, name);
        RecordedGrows(a, b, key, name, l.url);
      }
      forall l | l in leaves
        ensures Recorded(b, key, name, l.url)
      {
        var j :| 0 <= j < |leaves| && leaves[j] == l;
      }
    }
    forall i | 0 <= i < |walk + [url]|
      ensures PageRecorded(server, join, (walk + [url])[i], b, key, name)
    {
      if i < |walk| {
        assert (walk + [url])[i] == walk[i];
      }
    }
  }

  /** The leaves of the page at `url`: none when it fails to load. */
  function PageLeavesOf(server: Server, join: (string, string) -> string, url: string): seq<Leaf> {
    if Page(server, url).Some? then PageLeaves(join, url, Page(server, url).value) else []
  }

  /** The catalog after the walk `walk` from `groups`: the leaves of each
      page, recorded in the order the pages were fetched. */
  function WalkGroups(server: Server, join: (string, string) -> string, groups: Groups, key: string,
                      name: string, itemUrl: string, now: string, walk: seq<string>): Groups {
    if walk == [] then groups
    else MergeAll(WalkGroups(server, join, groups, key, name, itemUrl, now, walk[..|walk| - 1]),
                  key, name, itemUrl, PageLeavesOf(server, join, walk[|walk| - 1]), now)
  }

  /** The URLs the walk `walk` adds to `processed_urls`. */
  function WalkUrls(server: Server, join: (string, string) -> string, walk: seq<string>): set<string> {
    if walk == [] then {}
    else WalkUrls(server, join, walk[..|walk| - 1]) + Elements(LeafUrls(PageLeavesOf(server, join, walk[|walk| - 1])))
  }

  /** `u` is one of the leaf URLs of the page at `url`. */
  predicate OffersLeaf(server: Server, join: (string, string) -> string, url: string, u: string) {
    u in Elements(LeafUrls(PageLeavesOf(server, join, url)))
  }

  /** A URL is among the leaf URLs exactly when some leaf has it. */
  lemma {:induction false} LeafUrlsMember(leaves: seq<Leaf>, u: string)
    ensures u in Elements(LeafUrls(leaves)) <==> exists l :: l in leaves && l.url == u
  {
    if leaves != [] {
      var init := leaves[..|leaves| - 1];
      LeafUrlsMember(init, u);
      ElementsAppend(LeafUrls(init), leaves[|leaves| - 1].url);
      assert leaves == init + [leaves[|leaves| - 1]];
      assert forall l :: l in leaves <==> l in init || l == leaves[|leaves| - 1];
    }
  }

  /** Every URL the walk adds is offered by a walked page. */
  lemma {:induction false} WalkUrlsSound(server: Server, join: (string, string) -> string, walk: seq<string>, u: string)
    requires u in WalkUrls(server, join, walk)
    ensures exists i :: 0 <= i < |walk| && OffersLeaf(server, join, walk[i], u)
  {
    var init, last := walk[..|walk| - 1], walk[|walk| - 1];
    if u in WalkUrls(server, join, init) {
      WalkUrlsSound(server, join, init, u);
      var i :| 0 <= i < |init| && OffersLeaf(server, join, init[i], u);
      assert walk[i] == init[i];
    } else {
      assert OffersLeaf(server, join, walk[|walk| - 1], u);
    }
  }

  /** Every URL a walked page offers is added. */
  lemma {:induction false} WalkUrlsComplete(server: Server, join: (string, string) -> string, walk: seq<string>, i: nat, u: string)
    requires i < |walk| && OffersLeaf(server, join, walk[i], u)
    ensures u in WalkUrls(server, join, walk)
  {
    var init := walk[..|walk| - 1];
    if i == |walk| - 1 {
      assert WalkUrls(server, join, walk) ==
             WalkUrls(server, join, init) + Elements(LeafUrls(PageLeavesOf(server, join, walk[i])));
    } else {
      assert init[i] == walk[i];
      WalkUrlsComplete(server, join, init, i, u);
    }
  }

  /** The walk adds to `processed_urls` exactly the leaf URLs of the pages
      it fetched: no URL that no walked page offers. */
  lemma WalkUrlsSpec(server: Server, join: (string, string) -> string, walk: seq<string>, u: string)
    ensures u in WalkUrls(server, join, walk) <==> exists i :: 0 <= i < |walk| && OffersLeaf(server, join, walk[i], u)
  {
    if u in WalkUrls(server, join, walk) {
      WalkUrlsSound(server, join, walk, u);
    } else if exists i :: 0 <= i < |walk| && OffersLeaf(server, join, walk[i], u) {
      var i :| 0 <= i < |walk| && OffersLeaf(server, join, walk[i], u);
      WalkUrlsComplete(server, join, walk, i, u);
    }
  }

  /** A URL a page offers is the URL of one of its leaves, and the other
      way round. */
  lemma OffersLeafSpec(server: Server, join: (string, string) -> string, url: string, u: string)
    ensures OffersLeaf(server, join, url, u) <==> exists l :: l in PageLeavesOf(server, join, url) && l.url == u
  {
    LeafUrlsMember(PageLeavesOf(server, join, url), u);
  }

  /** The processed set and the catalog are exactly what the walk `walk`
      from `p0` and `g0` leaves. */
  ghost predicate WalkExact(server: Server, join: (string, string) -> string, walk: seq<string>, p0: set<string>,
                            g0: Groups, key: string, name: string, itemUrl: string, now: string,
                            processed: set<string>, groups: Groups) {
    && processed == p0 + WalkUrls(server, join, walk)
    && groups == WalkGroups(server, join, g0, key, name, itemUrl, now, walk)
  }

  /** Visiting `url`, which records exactly the leaves of its page, extends
      the exact effect of the walk by that page. */
  lemma WalkExactVisit(server: Server, join: (string, string) -> string, walk: seq<string>, url: string,
                       p0: set<string>, g0: Groups, key: string, name: string, itemUrl: string, now: string,
                       processed: set<string>, groups: Groups, processed': set<string>, groups': Groups)
    requires WalkExact(server, join, walk, p0, g0, key, name, itemUrl, now, processed, groups)
    requires processed' == processed + Elements(LeafUrls(PageLeavesOf(server, join, url)))
    requires groups' == MergeAll(groups, key, name, itemUrl, PageLeavesOf(server, join, url), now)
    ensures WalkExact(server, join, walk + [url], p0, g0, key, name, itemUrl, now, processed', groups')
  {
    assert (walk + [url])[..|walk|] == walk;
  }

  // ---------------------------------------------------------------------
  // What a series crawl keeps
  // ---------------------------------------------------------------------

  /** No group of the catalog holds two items with the same title. */
  ghost predicate TitlesUnique(groups: Groups) {
    forall k :: k in groups ==> UniqueTitles(groups[k])
  }

  /** A merge keeps the titles of every group distinct. */
  lemma MergedUnderUnique(a: Groups, b: Groups, key: string, name: string, itemUrl: string, now: string)
    requires MergedUnder(a, b, key, name, itemUrl, now) && TitlesUnique(a)
    ensures TitlesUnique(b)
  {
    MergedUnderTitles(a, b, key, name, itemUrl, now);
    forall k | k in b
      ensures UniqueTitles(b[k])
    {
      if k == key {
        assert b[k] == GroupOf(b, key);
      } else {
        assert k in a;
      }
    }
  }

  /** The covering set of the content may grow. */
  lemma ContentInMore(groups: Groups, s: set<string>, t: set<string>)
    requires ContentIn(groups, s) && s <= t
    ensures ContentIn(groups, t)
  {
  }

  /** A catalog whose every URL is in `s` has its content in `s`: so
      `_load_progress` leaves the content of the loaded catalog processed. */
  lemma CatalogContentIn(groups: Groups, s: set<string>)
    requires CatalogUrls(groups) <= s
    ensures ContentIn(groups, s)
  {
    forall k, i | k in groups && 0 <= i < |groups[k]|
      ensures Elements(groups[k][i].content) <= s
    {
      forall u | u in Elements(groups[k][i].content)
        ensures u in s
      {
        GroupUrlsMember(groups[k], u);
        assert u in ItemUrls(groups[k][i]);
        assert u in CatalogUrls(groups);
      }
    }
  }

  /** The last URL in `log` is `url`, and `url` fails to load: how the crawl
      ends when a year page is missing. */
  ghost predicate FailedLast(server: Server, log: seq<string>, url: string) {
    |log| > 0 && log[|log| - 1] == url && Page(server, url).None?
  }

  /** `url` is the year page of a titled anchor on the loaded root page
      `root`. */
  ghost predicate YearLinkOf(server: Server, root: string, url: string) {
    && Page(server, root).Some?
    && exists l :: l in Page(server, root).value && Titled(l) && url == root + "/" + l.href
  }

  /** The crawl of the mirrors `ms` stopped at the year page `url` of one
      of them: the roots of `ms` up to that mirror were fetched in order
      after position `from` of `log`, and `url` is the year page of a
      titled anchor on that mirror's root page. */
  ghost predicate StoppedIn(server: Server, log: seq<string>, from: nat, ms: seq<int>, url: string) {
    exists j :: 0 <= j < |ms| && RootsFetched(log, from, ms[..j + 1], SeriesRoot) &&
                YearLinkOf(server, SeriesRoot(ms[j]), url)
  }

  /** What crawling series keeps from state `a` to state `b`: nothing is
      forgotten from the processed set; catalog items only grow; every
      content URL stays processed and no group gains a second item for a
      title, if so before; the checkpoint is never moved; saves are only
      appended, the in-memory document and the file change only by a save,
      after which the file holds the in-memory document; and every save
      made carries the checkpoint of `a`. */
  ghost predicate SeriesAdvanced(a: Crawl, b: Crawl) {
    && a.processed <= b.processed
    && Grows(a.doc.groups, b.doc.groups)
    && (ContentIn(a.doc.groups, a.processed) ==> ContentIn(b.doc.groups, b.processed))
    && (TitlesUnique(a.doc.groups) ==> TitlesUnique(b.doc.groups))
    && b.doc.lastProcessed == a.doc.lastProcessed
    && a.saves <= b.saves
    && (|b.saves| == |a.saves| ==> b.file == a.file && b.doc == a.doc)
    && (|b.saves| > |a.saves| ==> b.file == Some(b.doc) && b.saves[|b.saves| - 1] == b.doc)
    && (forall k :: |a.saves| <= k < |b.saves| ==> b.saves[k].lastProcessed == a.doc.lastProcessed)
  }

  /** A crawl that does nothing has advanced. */
  lemma SeriesAdvancedRefl(a: Crawl)
    ensures SeriesAdvanced(a, a)
  {
    assert forall k :: k in a.doc.groups ==> forall i :: 0 <= i < |a.doc.groups[k]| ==>
             ItemGrows(a.doc.groups[k][i], a.doc.groups[k][i]);
  }

  /** Two steps of a series crawl make one. */
  lemma SeriesAdvancedTrans(a: Crawl, b: Crawl, c: Crawl)
    requires SeriesAdvanced(a, b) && SeriesAdvanced(b, c)
    ensures SeriesAdvanced(a, c)
  {
    GrowsTransitive(a.doc.groups, b.doc.groups, c.doc.groups);
    forall k | |a.saves| <= k < |c.saves|
      ensures c.saves[k].lastProcessed == a.doc.lastProcessed
    {
      if k < |b.saves| {
        assert c.saves[k] == b.saves[k];
      }
    }
  }

  /** A merge of one series followed by a save is a series crawl step. */
  lemma MergeSaveAdvanced(a: Crawl, b: Crawl, key: string, name: string, itemUrl: string, now: string)
    requires a.processed <= b.processed
    requires MergedUnder(a.doc.groups, b.doc.groups, key, name, itemUrl, now)
    requires ContentIn(a.doc.groups, a.processed) ==> ContentIn(b.doc.groups, b.processed)
    requires b.doc.lastProcessed == a.doc.lastProcessed
    requires b.file == Some(b.doc) && b.saves == a.saves + [b.doc]
    ensures SeriesAdvanced(a, b)
  {
    if TitlesUnique(a.doc.groups) {
      MergedUnderUnique(a.doc.groups, b.doc.groups, key, name, itemUrl, now);
    }
  }

  /** `SeriesIndexer`: the save file, the processed set and the oracle
      standing for the web. */
  class SeriesIndexer {
    /** `self.working_index` */
    const workingIndex: seq<int> := WorkingIndex
    /** The web the crawl sees. */
    const server: Server
    /** `urllib.parse.urljoin`, left uninterpreted. */
    const urljoin: (string, string) -> string
    /** `self.processed_urls` */
    var processedUrls: set<string>
    /** The save file: `None` while it does not exist. */
    var file: Option<Document>
    /** Every document written by `_save_progress`, in order. */
    ghost var saves: seq<Document>
    /** Every URL passed to `_fetch`, in order. */
    ghost var fetchLog: seq<string>

    constructor (server: Server, urljoin: (string, string) -> string, file: Option<Document>)
      ensures this.server == server && this.urljoin == urljoin && this.file == file
      ensures processedUrls == {} && saves == [] && fetchLog == []
    {
      this.server := server;
      this.urljoin := urljoin;
      this.file := file;
      processedUrls := {};
      saves := [];
      fetchLog := [];
    }

    /** The document `_load_progress` starts from. */
    function Loaded(): Document
      reads this
    {
      if file.None? then FreshDocument else file.value
    }

    /** The state the crawl changes. */
    ghost function State(indexes: Progress): Crawl
      reads this, indexes
    {
      Crawl(processedUrls, indexes.Snapshot(), file, saves)
    }

    /** `_fetch(url)`: three attempts against the server. */
    method Fetch(url: string) returns (soup: Option<seq<Link>>)
      modifies this`fetchLog
      ensures soup == Page(server, url)
      ensures fetchLog == old(fetchLog) + [url]
    {
      var page, trace := FetchWithRetries(ResponsesFor(server, url), Retries);
      fetchLog := fetchLog + [url];
      soup := page;
    }

    /** `_save_progress`: the whole document is written out. */
    method SaveProgress(indexes: Progress)
      modifies this`file, this`saves
      ensures file == Some(indexes.Snapshot())
      ensures saves == old(saves) + [indexes.Snapshot()]
    {
      file := Some(indexes.Snapshot());
      saves := saves + [indexes.Snapshot()];
    }

    /** The two inner loops of `_load_progress` for one year group: every
        series' `url` and `content` entries join `processed_urls`. */
    method AddGroupUrls(items: seq<Item>)
      modifies this`processedUrls
      ensures processedUrls == old(processedUrls) + GroupUrls(items)
    {
      for i := 0 to |items|
        invariant processedUrls == old(processedUrls) + GroupUrls(items[..i])
      {
        GroupUrlsPrefix(items, i);
        processedUrls := processedUrls + {items[i].url};
        var content := items[i].content;
        for j := 0 to |content|
          invariant processedUrls == old(processedUrls) + GroupUrls(items[..i]) + {items[i].url} + Elements(content[..j])
        {
          assert content[..j + 1] == content[..j] + [content[j]];
          ElementsAppend(content[..j], content[j]);
          processedUrls := processedUrls + {content[j]};
        }
        assert content[..|content|] == content;
      }
      assert items[..|items|] == items;
    }

    /** `_load_progress`: the saved document, or the fresh one when there is
        no file; every series URL and content URL of a loaded catalog is
        added to `processed_urls`. */
    method LoadProgress() returns (indexes: Progress)
      modifies this`processedUrls
      ensures fresh(indexes)
      ensures indexes.Snapshot() == Loaded()
      ensures processedUrls == old(processedUrls) + CatalogUrls(Loaded().groups)
    {
      if file.None? {
        indexes := new Progress(FreshDocument);
        assert CatalogUrls(FreshDocument.groups) == {};
        return;
      }
      var data := file.value;
      var remaining := data.groups.Keys;
      ghost var done: set<string> := {};
      while remaining != {}
        invariant remaining + done == data.groups.Keys && remaining !! done
        invariant processedUrls == old(processedUrls) + KeysUrls(data.groups, done)
        decreases remaining
      {
        var k :| k in remaining;
        AddGroupUrls(data.groups[k]);
        KeysUrlsAdd(data.groups, done, k);
        remaining, done := remaining - {k}, done + {k};
      }
      assert done == data.groups.Keys;
      indexes := new Progress(data);
    }

    /** The `setdefault` and `next(...)` of `_recursive_fetch`: the leaf goes
        to the first item of the group titled `seriesName`, or a new item
        with the URL `urljoin(base_url, series_name)` is appended. */
    method RecordLeaf(indexes: Progress, key: string, seriesName: string, baseUrl: string, leaf: Leaf, now: string)
      modifies indexes`groups
      ensures indexes.groups == MergeLeaf(old(indexes.groups), key, seriesName, urljoin(baseUrl, seriesName), leaf, now)
    {
      if key !in indexes.groups {
        indexes.groups := indexes.groups[key := []];
      }
      var seriesEntry := indexes.groups[key];
      var existingSeries := FindTitle(seriesEntry, seriesName);
      if existingSeries.Some? {
        var i := existingSeries.value;
        indexes.groups := indexes.groups[key := seriesEntry[i := WithLeaf(seriesEntry[i], leaf)]];
      } else {
        var item := NewSeriesItem(seriesName, urljoin(baseUrl, seriesName), leaf, now);
        indexes.groups := indexes.groups[key := seriesEntry + [item]];
      }
    }

    /** One pass of the link loop of `_recursive_fetch`: an untitled anchor
        is skipped, a media link is recorded under `year_title.lower()` and
        joins `processed_urls`, any other link is pushed. */
    method ScanLink(current: string, link: Link, stack: seq<string>, indexes: Progress,
                    yearTitle: string, seriesName: string, baseUrl: string, now: string)
      returns (stack': seq<string>)
      modifies this`processedUrls, indexes`groups
      ensures Scan(indexes.groups, processedUrls, stack') ==
                LinkStep(Scan(old(indexes.groups), old(processedUrls), stack), Lower(yearTitle), seriesName,
                         urljoin(baseUrl, seriesName), now, urljoin, current, link)
    {
      stack' := stack;
      if !Titled(link) {
        return;
      }
      var href := link.href;
      var fullUrl := urljoin(current, href);
      if EndsWith(href, "mkv") || EndsWith(href, "mp4") {
        var qualityInfo := Quality.ExtractQuality(fullUrl, href);
        RecordLeaf(indexes, Lower(yearTitle), seriesName, baseUrl, Leaf(fullUrl, href, qualityInfo), now);
        processedUrls := processedUrls + {fullUrl};
      } else {
        stack' := stack' + [fullUrl];
      }
    }

    /** The link loop of `_recursive_fetch` over the page at `current`: the
        page's leaves are recorded in order and join `processed_urls`, and
        its directories are pushed in order. */
    method ScanPage(current: string, links: seq<Link>, stack: seq<string>, indexes: Progress,
                    yearTitle: string, seriesName: string, baseUrl: string, now: string)
      returns (stack': seq<string>)
      modifies this`processedUrls, indexes`groups
      ensures stack' == stack + PagePushes(urljoin, current, links)
      ensures var leaves := PageLeaves(urljoin, current, links);
              && indexes.groups == MergeAll(old(indexes.groups), Lower(yearTitle), seriesName,
                                            urljoin(baseUrl, seriesName), leaves, now)
              && processedUrls == old(processedUrls) + Elements(LeafUrls(leaves))
    {
      ghost var key, itemUrl := Lower(yearTitle), urljoin(baseUrl, seriesName);
      ghost var start := Scan(indexes.groups, processedUrls, stack);
      stack' := stack;
      for j := 0 to |links|
        invariant Scan(indexes.groups, processedUrls, stack') ==
                  ScanLinks(start, key, seriesName, itemUrl, now, urljoin, current, links[..j])
      {
        assert links[..j + 1][..j] == links[..j];
        stack' := ScanLink(current, links[j], stack', indexes, yearTitle, seriesName, baseUrl, now);
      }
      assert links[..|links|] == links;
      ScanLinksSpec(start, key, seriesName, itemUrl, now, urljoin, current, links);
    }

    /** The body of the walk of `_recursive_fetch` for a URL neither
        visited nor processed: it is fetched, and a page that loads has its
        leaves recorded, which is a merge step that keeps every recorded
        URL processed, and its directories pushed, which are all in
        `universe`. */
    method Visit(currentUrl: string, stack: seq<string>, indexes: Progress, yearTitle: string,
                 seriesName: string, baseUrl: string, now: string, ghost universe: set<string>)
      returns (stack': seq<string>)
      requires Closed(server, urljoin, universe)
      modifies this`processedUrls, this`fetchLog, indexes`groups
      ensures fetchLog == old(fetchLog) + [currentUrl]
      ensures (forall k :: 0 <= k < |stack| ==> stack[k] in universe) ==>
                forall k :: 0 <= k < |stack'| ==> stack'[k] in universe
      ensures old(processedUrls) <= processedUrls
      ensures MergedUnder(old(indexes.groups), indexes.groups, Lower(yearTitle), seriesName,
                          urljoin(baseUrl, seriesName), now)
      ensures ContentIn(old(indexes.groups), old(processedUrls)) ==> ContentIn(indexes.groups, processedUrls)
      ensures Page(server, currentUrl).None? ==>
                stack' == stack && processedUrls == old(processedUrls) && indexes.groups == old(indexes.groups)
      ensures Page(server, currentUrl).Some? ==>
                var links := Page(server, currentUrl).value;
                var leaves := PageLeaves(urljoin, currentUrl, links);
                && stack' == stack + PagePushes(urljoin, currentUrl, links)
                && indexes.groups == MergeAll(old(indexes.groups), Lower(yearTitle), seriesName,
                                              urljoin(baseUrl, seriesName), leaves, now)
                && processedUrls == old(processedUrls) + Elements(LeafUrls(leaves))
      ensures processedUrls == old(processedUrls) + Elements(LeafUrls(PageLeavesOf(server, urljoin, currentUrl)))
      ensures indexes.groups == MergeAll(old(indexes.groups), Lower(yearTitle), seriesName, urljoin(baseUrl, seriesName),
                                         PageLeavesOf(server, urljoin, currentUrl), now)
    {
      ghost var key, itemUrl := Lower(yearTitle), urljoin(baseUrl, seriesName);
      stack' := stack;
      var soup := Fetch(currentUrl);
      if soup.None? {
        MergedUnderRefl(indexes.groups, key, seriesName, itemUrl, now);
        return;
      }
      ghost var g1, p1 := indexes.groups, processedUrls;
      stack' := ScanPage(currentUrl, soup.value, stack, indexes, yearTitle, seriesName, baseUrl, now);
      MergeAllMerged(g1, key, seriesName, itemUrl, PageLeaves(urljoin, currentUrl, soup.value), now, p1);
      PushesBounded(server, urljoin, universe, currentUrl, soup.value);
      var pushes := PagePushes(urljoin, currentUrl, soup.value);
      assert forall k :: |stack| <= k < |stack'| ==> stack'[k] == pushes[k - |stack|];
      assert forall k :: 0 <= k < |stack| ==> stack'[k] == stack[k];
    }

    /** One turn of the loop of `_recursive_fetch`: the top of the stack is
        popped and, unless it was visited or processed already, visited. The
        walk invariant is kept, and either a URL of `universe` is newly
        visited or the stack shrinks. */
    method WalkStep(baseUrl: string, indexes: Progress, yearTitle: string, seriesName: string,
                    now: string, stack: seq<string>, visited: set<string>, ghost walk: seq<string>,
                    ghost universe: set<string>, ghost p0: set<string>, ghost g0: Groups,
                    ghost log0: seq<string>)
      returns (stack': seq<string>, visited': set<string>, ghost walk': seq<string>)
      requires stack != [] && Closed(server, urljoin, universe) && fetchLog == log0 + walk
      requires Walked(universe, baseUrl, p0, g0, Lower(yearTitle), seriesName, urljoin(baseUrl, seriesName),
                      now, stack, visited, walk, processedUrls, indexes.groups)
      requires WalkRecorded(server, urljoin, walk, indexes.groups, Lower(yearTitle), seriesName)
      requires WalkExact(server, urljoin, walk, p0, g0, Lower(yearTitle), seriesName, urljoin(baseUrl, seriesName),
                         now, processedUrls, indexes.groups)
      modifies this`processedUrls, this`fetchLog, indexes`groups
      ensures fetchLog == log0 + walk'
      ensures WalkExact(server, urljoin, walk', p0, g0, Lower(yearTitle), seriesName, urljoin(baseUrl, seriesName),
                        now, processedUrls, indexes.groups)
      ensures Walked(universe, baseUrl, p0, g0, Lower(yearTitle), seriesName, urljoin(baseUrl, seriesName),
                     now, stack', visited', walk', processedUrls, indexes.groups)
      ensures WalkRecorded(server, urljoin, walk', indexes.groups, Lower(yearTitle), seriesName)
      ensures var top := stack[|stack| - 1];
              && (top in visited || top in old(processedUrls) ==>
                    && stack' == stack[..|stack| - 1] && visited' == visited && walk' == walk
                    && processedUrls == old(processedUrls) && indexes.groups == old(indexes.groups))
              && (top !in visited && top !in old(processedUrls) ==>
                    && visited' == visited + {top} && walk' == walk + [top]
                    && processedUrls == old(processedUrls) + Elements(LeafUrls(PageLeavesOf(server, urljoin, top)))
                    && indexes.groups == MergeAll(old(indexes.groups), Lower(yearTitle), seriesName,
                                                  urljoin(baseUrl, seriesName), PageLeavesOf(server, urljoin, top), now)
                    && (Page(server, top).Some? ==>
                          stack' == stack[..|stack| - 1] + PagePushes(urljoin, top, Page(server, top).value)))
      ensures |universe - visited'| < |universe - visited| || (visited' == visited && |stack'| < |stack|)
    {
      ghost var key, itemUrl := Lower(yearTitle), urljoin(baseUrl, seriesName);
      var currentUrl := stack[|stack| - 1];
      stack', visited', walk' := stack[..|stack| - 1], visited, walk;
      WalkedPop(universe, baseUrl, p0, g0, key, seriesName, itemUrl, now, stack, visited, walk,
                processedUrls, indexes.groups);
      if currentUrl in visited || currentUrl in processedUrls {
        return;
      }
      ghost var g1, p1 := indexes.groups, processedUrls;
      stack' := Visit(currentUrl, stack', indexes, yearTitle, seriesName, baseUrl, now, universe);
      WalkedVisit(universe, baseUrl, p0, g0, key, seriesName, itemUrl, now, stack, visited,
                  walk, p1, g1, currentUrl, stack', processedUrls, indexes.groups);
      WalkRecordedVisit(server, urljoin, walk, currentUrl, g1, indexes.groups, key, seriesName, itemUrl, now);
      WalkExactVisit(server, urljoin, walk, currentUrl, p0, g0, key, seriesName, itemUrl, now, p1, g1,
                     processedUrls, indexes.groups);
      LogExtends(log0, walk, currentUrl);
      visited' := visited + {currentUrl};
      walk' := walk + [currentUrl];
    }

    /** `_recursive_fetch`: a walk with an explicit stack from `base_url`.
        A popped URL already visited or processed is skipped; any other is
        visited. `walk` is the sequence of URLs it fetched: the base first
        unless it was processed already, no URL twice and none processed
        before the call. The catalog changes only as recording leaves of
        `series_name` under `year_title.lower()` does, and every recorded
        URL is processed. */
    method RecursiveFetch(baseUrl: string, indexes: Progress, yearTitle: string, year: string,
                          seriesName: string, now: string)
      returns (ghost walk: seq<string>)
      modifies this`processedUrls, this`fetchLog, indexes`groups
      ensures fetchLog == old(fetchLog) + walk
      ensures Distinct(walk)
      ensures forall i :: 0 <= i < |walk| ==> walk[i] !in old(processedUrls)
      ensures walk == [] <==> baseUrl in old(processedUrls)
      ensures walk != [] ==> walk[0] == baseUrl
      ensures walk == [] ==> processedUrls == old(processedUrls) && indexes.groups == old(indexes.groups)
      ensures old(processedUrls) <= processedUrls
      ensures MergedUnder(old(indexes.groups), indexes.groups, Lower(yearTitle), seriesName,
                          urljoin(baseUrl, seriesName), now)
      ensures ContentIn(old(indexes.groups), old(processedUrls)) ==> ContentIn(indexes.groups, processedUrls)
      ensures WalkRecorded(server, urljoin, walk, indexes.groups, Lower(yearTitle), seriesName)
      ensures processedUrls == old(processedUrls) + WalkUrls(server, urljoin, walk)
      ensures indexes.groups == WalkGroups(server, urljoin, old(indexes.groups), Lower(yearTitle), seriesName,
                                           urljoin(baseUrl, seriesName), now, walk)
    {
      ghost var key, itemUrl := Lower(yearTitle), urljoin(baseUrl, seriesName);
      ghost var g0, p0, log0 := indexes.groups, processedUrls, fetchLog;
      ghost var universe := UniverseOf(server, urljoin, baseUrl);
      MergedUnderRefl(g0, key, seriesName, itemUrl, now);
      var stack := [baseUrl];
      var visited: set<string> := {};
      walk := [];
      while stack != []
        invariant fetchLog == log0 + walk
        invariant Walked(universe, baseUrl, p0, g0, key, seriesName, itemUrl, now,
                         stack, visited, walk, processedUrls, indexes.groups)
        invariant WalkRecorded(server, urljoin, walk, indexes.groups, key, seriesName)
        invariant WalkExact(server, urljoin, walk, p0, g0, key, seriesName, itemUrl, now, processedUrls, indexes.groups)
        decreases |universe - visited|, |stack|
      {
        stack, visited, walk := WalkStep(baseUrl, indexes, yearTitle, seriesName, now, stack, visited, walk,
                                         universe, p0, g0, log0);
      }
    }

    /** The part of `_process_series` after the series page at
        `seriesUrl` has loaded: the walk from `seriesUrl`, which fetches it
        again, records leaves of `seriesName` under `year` in lower case;
        then the series URL joins `processed_urls` and the document is
        saved. */
    method WalkSeries(seriesUrl: string, year: string, seriesName: string, indexes: Progress, now: string)
      returns (ghost walk: seq<string>)
      requires seriesUrl !in processedUrls
      modifies this`processedUrls, this`fetchLog, this`file, this`saves, indexes`groups
      ensures old(fetchLog) < fetchLog && fetchLog[|old(fetchLog)|] == seriesUrl
      ensures fetchLog == old(fetchLog) + walk && walk != [] && walk[0] == seriesUrl && Distinct(walk)
      ensures forall i :: 0 <= i < |walk| ==> walk[i] !in old(processedUrls)
      ensures processedUrls == old(processedUrls) + WalkUrls(server, urljoin, walk) + {seriesUrl}
      ensures indexes.groups == WalkGroups(server, urljoin, old(indexes.groups), Lower(year), seriesName,
                                           urljoin(seriesUrl, seriesName), now, walk)
      ensures WalkRecorded(server, urljoin, walk, indexes.groups, Lower(year), seriesName)
      ensures seriesUrl in processedUrls
      ensures MergedUnder(old(indexes.groups), indexes.groups, Lower(year), seriesName,
                          urljoin(seriesUrl, seriesName), now)
      ensures PageRecorded(server, urljoin, seriesUrl, indexes.groups, Lower(year), seriesName)
      ensures file == Some(indexes.Snapshot()) && saves == old(saves) + [indexes.Snapshot()]
      ensures SeriesAdvanced(old(State(indexes)), State(indexes))
    {
      ghost var start := State(indexes);
      walk := RecursiveFetch(seriesUrl, indexes, year, year, seriesName, now);
      LogStartsWith(old(fetchLog), walk, seriesUrl);
      assert PageRecorded(server, urljoin, walk[0], indexes.groups, Lower(year), seriesName);
      ghost var walked, logged := processedUrls, fetchLog;
      processedUrls := processedUrls + {seriesUrl};
      SaveProgress(indexes);
      assert fetchLog == logged;
      if ContentIn(start.doc.groups, start.processed) {
        ContentInMore(indexes.groups, walked, processedUrls);
      }
      MergeSaveAdvanced(start, State(indexes), Lower(year), seriesName, urljoin(seriesUrl, seriesName), now);
    }

    /** `_process_series`: a processed series URL and a series page that
        fails to load are skipped; otherwise the walk from the series URL,
        which fetches that URL a second time, records its leaves under
        the year in lower case, the series URL joins `processed_urls` and
        the document is saved. The checkpoint is not touched. */
    method ProcessSeries(seriesUrl: string, indexes: Progress, now: string) returns (ghost walk: seq<string>)
      modifies this, indexes
      ensures var info := SeriesInfo(seriesUrl);
              && (seriesUrl in old(processedUrls) ==>
                    fetchLog == old(fetchLog) && State(indexes) == old(State(indexes)))
              && (seriesUrl !in old(processedUrls) && Page(server, seriesUrl).None? ==>
                    fetchLog == old(fetchLog) + [seriesUrl] && State(indexes) == old(State(indexes)))
              && (seriesUrl !in old(processedUrls) && Page(server, seriesUrl).Some? ==>
                    && old(fetchLog) + [seriesUrl] < fetchLog && fetchLog[|old(fetchLog)| + 1] == seriesUrl
                    && seriesUrl in processedUrls
                    && MergedUnder(old(indexes.groups), indexes.groups, Lower(info.0), info.1,
                                   urljoin(seriesUrl, info.1), now)
                    && (forall l :: l in PageLeaves(urljoin, seriesUrl, Page(server, seriesUrl).value) ==>
                                    Recorded(indexes.groups, Lower(info.0), info.1, l.url))
                    && fetchLog == old(fetchLog) + [seriesUrl] + walk && walk[0] == seriesUrl && Distinct(walk)
                    && (forall i :: 0 <= i < |walk| ==> walk[i] !in old(processedUrls))
                    && processedUrls == old(processedUrls) + WalkUrls(server, urljoin, walk) + {seriesUrl}
                    && indexes.groups == WalkGroups(server, urljoin, old(indexes.groups), Lower(info.0), info.1,
                                                    urljoin(seriesUrl, info.1), now, walk)
                    && WalkRecorded(server, urljoin, walk, indexes.groups, Lower(info.0), info.1)
                    && file == Some(indexes.Snapshot())
                    && saves == old(saves) + [indexes.Snapshot()])
      ensures SeriesAdvanced(old(State(indexes)), State(indexes))
    {
      SeriesAdvancedRefl(State(indexes));
      walk := [];
      if seriesUrl in processedUrls {
        return;
      }
      var soup := Fetch(seriesUrl);
      if soup.None? {
        return;
      }
      var year, seriesName, _ := ExtractSeriesInfo(seriesUrl);
      walk := WalkSeries(seriesUrl, year, seriesName, indexes, now);
    }

    /** The year level of `create_index` once the year page `links` at
        `yearUrl` has loaded: every titled anchor, resolved against the
        year URL, goes to `_process_series`. */
    method CrawlYearPage(yearUrl: string, links: seq<Link>, indexes: Progress, now: string)
      modifies this, indexes
      ensures old(fetchLog) <= fetchLog
      ensures SeriesAdvanced(old(State(indexes)), State(indexes))
    {
      ghost var start := State(indexes);
      SeriesAdvancedRefl(start);
      for b := 0 to |links|
        invariant old(fetchLog) <= fetchLog
        invariant SeriesAdvanced(start, State(indexes))
      {
        var link := links[b];
        if !Titled(link) {
          continue;
        }
        ghost var before := State(indexes);
        var _ := ProcessSeries(urljoin(yearUrl, link.href), indexes, now);
        SeriesAdvancedTrans(start, before, State(indexes));
      }
    }

    /** An anchor of the series root at `root`, in a crawl that has
        advanced from `start`: an untitled anchor is skipped; for a titled
        one the year page at the root plus "/" plus its `href` is fetched;
        when it fails to load, `failed` is its URL, the last one fetched,
        where the source calls `find_all` on `None` and raises; otherwise
        its series are crawled. */
    method CrawlYearLink(root: string, link: Link, indexes: Progress, now: string, ghost start: Crawl)
      returns (failed: Option<string>)
      requires SeriesAdvanced(start, State(indexes))
      modifies this, indexes
      ensures var yearUrl := root + "/" + link.href;
              && old(fetchLog) <= fetchLog
              && (!Titled(link) ==> failed.None? && fetchLog == old(fetchLog))
              && (Titled(link) ==> |fetchLog| > |old(fetchLog)| && fetchLog[|old(fetchLog)|] == yearUrl)
              && (failed.Some? <==> Titled(link) && Page(server, yearUrl).None?)
              && (failed.Some? ==> failed.value == yearUrl && fetchLog == old(fetchLog) + [yearUrl])
      ensures SeriesAdvanced(start, State(indexes))
    {
      failed := None;
      if !Titled(link) {
        return;
      }
      var yearUrl := root + "/" + link.href;
      var yearSoup := Fetch(yearUrl);
      if yearSoup.None? {
        return Some(yearUrl);
      }
      ghost var before := State(indexes);
      CrawlYearPage(yearUrl, yearSoup.value, indexes, now);
      SeriesAdvancedTrans(start, before, State(indexes));
    }

    /** One mirror of `create_index`: the series root of mirror `index` is
        fetched, and a root that fails to load is skipped; otherwise each
        titled anchor on it is a year page. A year page that fails to load
        stops the crawl, and `failed` is its URL, the last one fetched. */
    method CrawlSeriesMirror(index: int, indexes: Progress, now: string) returns (failed: Option<string>)
      modifies this, indexes
      ensures old(fetchLog) < fetchLog && fetchLog[|old(fetchLog)|] == SeriesRoot(index)
      ensures Page(server, SeriesRoot(index)).None? ==>
                failed.None? && fetchLog == old(fetchLog) + [SeriesRoot(index)] && saves == old(saves) &&
                processedUrls == old(processedUrls)
      ensures failed.Some? ==> FailedLast(server, fetchLog, failed.value)
      ensures failed.Some? ==> YearLinkOf(server, SeriesRoot(index), failed.value)
      ensures SeriesAdvanced(old(State(indexes)), State(indexes))
    {
      ghost var start := State(indexes);
      SeriesAdvancedRefl(start);
      failed := None;
      var url := SeriesRoot(index);
      var soup := Fetch(url);
      ghost var log := fetchLog;
      if soup.None? {
        return;
      }
      var links := soup.value;
      for a := 0 to |links|
        invariant failed.None? && log <= fetchLog
        invariant SeriesAdvanced(start, State(indexes))
      {
        failed := CrawlYearLink(url, links[a], indexes, now, start);
        if failed.Some? {
          assert links[a] in Page(server, url).value;
          return;
        }
      }
    }

    /** The mirror loop of `create_index` from position `pos` of the working
        index, stopping at the first year page that fails to load: the
        mirrors are crawled in order, each starting with the fetch of its
        root, all of them when no year page failed, and otherwise those up
        to the one whose year page failed. */
    method CrawlFrom(pos: nat, indexes: Progress, now: string) returns (failed: Option<string>)
      requires pos <= |workingIndex|
      modifies this, indexes
      ensures old(fetchLog) <= fetchLog
      ensures failed.None? ==> RootsFetched(fetchLog, |old(fetchLog)|, workingIndex[pos..], SeriesRoot)
      ensures failed.Some? ==>
                old(fetchLog) < fetchLog && FailedLast(server, fetchLog, failed.value)
      ensures failed.Some? ==> StoppedIn(server, fetchLog, |old(fetchLog)|, workingIndex[pos..], failed.value)
      ensures SeriesAdvanced(old(State(indexes)), State(indexes))
    {
      ghost var start := State(indexes);
      ghost var marks: seq<nat> := [];
      SeriesAdvancedRefl(start);
      failed := None;
      for m := pos to |workingIndex|
        invariant failed.None? && old(fetchLog) <= fetchLog
        invariant RootsAt(fetchLog, |old(fetchLog)|, workingIndex[pos..][..m - pos], SeriesRoot, marks)
        invariant SeriesAdvanced(start, State(indexes))
      {
        failed, marks := CrawlNext(pos, m, indexes, now, start, old(fetchLog), marks);
        if failed.Some? {
          return;
        }
      }
      assert workingIndex[pos..][..|workingIndex| - pos] == workingIndex[pos..];
      assert RootsAt(fetchLog, |old(fetchLog)|, workingIndex[pos..], SeriesRoot, marks);
    }

    /** One turn of the mirror loop: mirror `workingIndex[m]` is crawled,
        which fetches its root next and keeps the crawl invariant; a failure
        is a year page of that mirror. */
    method CrawlNext(pos: nat, m: nat, indexes: Progress, now: string, ghost start: Crawl,
                     ghost log0: seq<string>, ghost marks: seq<nat>)
      returns (failed: Option<string>, ghost marks': seq<nat>)
      requires pos <= m < |workingIndex| && log0 <= fetchLog
      requires RootsAt(fetchLog, |log0|, workingIndex[pos..][..m - pos], SeriesRoot, marks)
      requires SeriesAdvanced(start, State(indexes))
      modifies this, indexes
      ensures log0 <= fetchLog
      ensures RootsAt(fetchLog, |log0|, workingIndex[pos..][..m + 1 - pos], SeriesRoot, marks')
      ensures failed.Some? ==> log0 < fetchLog && FailedLast(server, fetchLog, failed.value)
      ensures failed.Some? ==> StoppedIn(server, fetchLog, |log0|, workingIndex[pos..], failed.value)
      ensures SeriesAdvanced(start, State(indexes))
    {
      ghost var before, log := State(indexes), fetchLog;
      failed := CrawlSeriesMirror(workingIndex[m], indexes, now);
      RootsAtStep(log, fetchLog, |log0|, workingIndex[pos..], m - pos, SeriesRoot, marks);
      marks' := marks + [|log|];
      SeriesAdvancedTrans(start, before, State(indexes));
      if failed.Some? {
        assert workingIndex[pos..][m - pos] == workingIndex[m];
        assert RootsFetched(fetchLog, |log0|, workingIndex[pos..][..m - pos + 1], SeriesRoot);
      }
    }

    /** `create_index`: loads the catalog and resumes at the checkpoint's
        mirror, crawling it and every later mirror; then drops the
        checkpoint from the in-memory document without saving. A checkpoint
        naming no listed mirror makes `working_index.index` raise before
        anything is fetched; a year page that fails to load raises in the
        crawl. Every save made carries the loaded checkpoint: the series
        crawl never moves it. */
    method CreateIndex(now: string) returns (outcome: Outcome, indexes: Progress)
      modifies this
      ensures fresh(indexes)
      ensures var start := StartIndex(old(Loaded()));
              && (outcome.StartNotListed? <==> start !in workingIndex)
              && (outcome.StartNotListed? ==>
                    && outcome.index == start
                    && indexes.Snapshot() == old(Loaded()) && file == old(file) && saves == old(saves)
                    && fetchLog == old(fetchLog))
              && (outcome.FailedPageDereferenced? ==>
                    && old(fetchLog) < fetchLog && FailedLast(server, fetchLog, outcome.url)
                    && StoppedIn(server, fetchLog, |old(fetchLog)|,
                                 workingIndex[IndexOf(workingIndex, start).value..], outcome.url))
              && (outcome.Completed? ==>
                    && indexes.lastProcessed == None
                    && RootsFetched(fetchLog, |old(fetchLog)|, workingIndex[IndexOf(workingIndex, start).value..],
                                    SeriesRoot))
      ensures old(saves) <= saves
      ensures forall k :: |old(saves)| <= k < |saves| ==> saves[k].lastProcessed == old(Loaded()).lastProcessed
      ensures |saves| == |old(saves)| ==> file == old(file)
      ensures |saves| > |old(saves)| ==> file == Some(saves[|saves| - 1])
      ensures old(processedUrls) <= processedUrls
      ensures Grows(old(Loaded()).groups, indexes.groups)
      ensures ContentIn(indexes.groups, processedUrls)
      ensures TitlesUnique(old(Loaded()).groups) ==> TitlesUnique(indexes.groups)
    {
      indexes := LoadProgress();
      CatalogContentIn(indexes.groups, processedUrls);
      ghost var start := State(indexes);
      var startIndex := StartIndex(indexes.Snapshot());
      var startPos := IndexOf(workingIndex, startIndex);
      if startPos.None? {
        SeriesAdvancedRefl(start);
        return StartNotListed(startIndex), indexes;
      }
      outcome := Resume(startPos.value, indexes, now);
    }

    /** The crawl of `create_index` from position `pos` of the working
        index: it raises at a year page that fails to load, and otherwise
        ends with `indexes.pop("last_processed", None)`, which is not
        saved. */
    method Resume(pos: nat, indexes: Progress, now: string) returns (outcome: Outcome)
      requires pos <= |workingIndex|
      modifies this, indexes
      ensures outcome.Completed? || outcome.FailedPageDereferenced?
      ensures outcome.FailedPageDereferenced? ==>
                && old(fetchLog) < fetchLog && FailedLast(server, fetchLog, outcome.url)
                && StoppedIn(server, fetchLog, |old(fetchLog)|, workingIndex[pos..], outcome.url)
      ensures outcome.Completed? ==>
                && indexes.lastProcessed == None
                && RootsFetched(fetchLog, |old(fetchLog)|, workingIndex[pos..], SeriesRoot)
      ensures old(saves) <= saves
      ensures forall k :: |old(saves)| <= k < |saves| ==> saves[k].lastProcessed == old(indexes.lastProcessed)
      ensures |saves| == |old(saves)| ==> file == old(file)
      ensures |saves| > |old(saves)| ==> file == Some(saves[|saves| - 1])
      ensures old(processedUrls) <= processedUrls
      ensures Grows(old(indexes.groups), indexes.groups)
      ensures ContentIn(old(indexes.groups), old(processedUrls)) ==> ContentIn(indexes.groups, processedUrls)
      ensures TitlesUnique(old(indexes.groups)) ==> TitlesUnique(indexes.groups)
    {
      var failed := CrawlFrom(pos, indexes, now);
      if failed.Some? {
        return FailedPageDereferenced(failed.value);
      }
      indexes.lastProcessed := None;
      outcome := Completed;
    }
  }
}
