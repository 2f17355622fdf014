/** The persisted catalog document both indexers keep: groups of items under
    a grouping key, and the optional `last_processed` checkpoint. */
module Catalog {
  import opened Wrappers
  import PyStr
  import Quality

  /** One `quality_details` entry. */
  datatype QualityDetail = QualityDetail(url: string, filename: string, quality: Quality.Quality)

  /** One catalog item; the `extra_info` fields are flattened into it. */
  datatype Item = Item(url: string, title: string, content: seq<string>,
                       extractedYear: string, extractedName: string,
                       qualityDetails: seq<QualityDetail>, addedDate: string)

  /** The `movies` or `series` dictionary: grouping key to items. */
  type Groups = map<string, seq<Item>>

  /** The cursor field of a checkpoint: the `0` of a fresh document, or the
      URL of the last accepted item. */
  datatype Cursor = Zero | Last(url: string)

  /** `last_processed`: the mirror number being crawled and the cursor. */
  datatype Checkpoint = Checkpoint(index: int, cursor: Cursor)

  /** The whole JSON document. */
  datatype Document = Document(groups: Groups, lastProcessed: Option<Checkpoint>)

  /** The document a missing save file stands for:
      `{"movies": {}, "last_processed": {"index": 2, "movie": 0}}`, and the
      same with `series` in the series indexer. */
  const FreshDocument: Document := Document(map[], Some(Checkpoint(2, Zero)))

  /** The mirror numbers both indexers crawl, in order. */
  const WorkingIndex: seq<int> := [2, 3, 4, 5, 11, 12]

  /** The in-memory `indexes` dictionary, which the crawl updates in place. */
  class Progress {
    var groups: Groups
    var lastProcessed: Option<Checkpoint>

    constructor (doc: Document)
      ensures Snapshot() == doc
    {
      groups := doc.groups;
      lastProcessed := doc.lastProcessed;
    }

    /** What `json.dump` would write now. */
    function Snapshot(): Document
      reads this
    {
      Document(groups, lastProcessed)
    }
  }

  /** The `url` fields of a list of quality details, in order. */
  function DetailUrls(ds: seq<QualityDetail>): (urls: seq<string>)
    ensures |urls| == |ds|
    ensures forall i :: 0 <= i < |ds| ==> urls[i] == ds[i].url
  {
    seq(|ds|, i requires 0 <= i < |ds| => ds[i].url)
  }

  /** The entries of `s` as a set. */
  function Elements(s: seq<string>): set<string> {
    if s == [] then {} else Elements(s[..|s| - 1]) + {s[|s| - 1]}
  }

  lemma {:induction false} ElementsMember(s: seq<string>, u: string)
    ensures u in Elements(s) <==> u in s
  {
    if s != [] {
      ElementsMember(s[..|s| - 1], u);
      assert s == s[..|s| - 1] + [s[|s| - 1]];
    }
  }

  lemma ElementsAppend(s: seq<string>, x: string)
    ensures Elements(s + [x]) == Elements(s) + {x}
  {
    assert (s + [x])[..|s|] == s;
  }

  /** The URLs `_load_progress` records for one item: its `url` and every
      entry of its `content`. */
  function ItemUrls(it: Item): set<string> {
    {it.url} + Elements(it.content)
  }

  /** The URLs of the items of one group. */
  function GroupUrls(g: seq<Item>): set<string> {
    if g == [] then {} else GroupUrls(g[..|g| - 1]) + ItemUrls(g[|g| - 1])
  }

  /** The URLs of every item of a catalog. */
  function CatalogUrls(groups: Groups): set<string> {
    set k, u | k in groups && u in GroupUrls(groups[k]) :: u
  }

  /** A URL belongs to a group's URLs exactly when it belongs to one of its items. */
  lemma {:induction false} GroupUrlsMember(g: seq<Item>, u: string)
    ensures u in GroupUrls(g) <==> exists i :: 0 <= i < |g| && u in ItemUrls(g[i])
  {
    if g != [] {
      var init := g[..|g| - 1];
      GroupUrlsMember(init, u);
      if u in GroupUrls(init) {
        var i :| 0 <= i < |init| && u in ItemUrls(init[i]);
        assert g[i] == init[i];
      }
      if exists i :: 0 <= i < |g| && u in ItemUrls(g[i]) {
        var i :| 0 <= i < |g| && u in ItemUrls(g[i]);
        if i < |init| {
          assert init[i] == g[i];
        }
      }
    }
  }

  /** The URLs of the items of the groups under `keys`. */
  function KeysUrls(groups: Groups, keys: set<string>): set<string> {
    set k, u | k in keys && k in groups && u in GroupUrls(groups[k]) :: u
  }

  /** Taking one more group's items adds exactly that group's URLs. */
  lemma KeysUrlsAdd(groups: Groups, keys: set<string>, k: string)
    requires k in groups
    ensures KeysUrls(groups, keys + {k}) == KeysUrls(groups, keys) + GroupUrls(groups[k])
  {
  }

  /** One more item of a group adds exactly that item's URLs. */
  lemma GroupUrlsPrefix(g: seq<Item>, i: nat)
    requires i < |g|
    ensures GroupUrls(g[..i + 1]) == GroupUrls(g[..i]) + ItemUrls(g[i])
  {
    assert g[..i + 1][..i] == g[..i];
  }

  /** The group under `key`, empty when there is none: `setdefault(key, [])`. */
  function GroupOf(groups: Groups, key: string): seq<Item> {
    if key in groups then groups[key] else []
  }

  /** `groups.setdefault(key, []).append(item)` in value form. */
  function AddToGroup(groups: Groups, key: string, item: Item): (r: Groups)
    ensures r.Keys == groups.Keys + {key}
    ensures forall k :: k in groups && k != key ==> r[k] == groups[k]
    ensures r[key] == GroupOf(groups, key) + [item]
  {
    groups[key := GroupOf(groups, key) + [item]]
  }

  /** Appending an item adds exactly that item's URLs to the catalog's URLs. */
  lemma AddToGroupUrls(groups: Groups, key: string, item: Item)
    ensures CatalogUrls(AddToGroup(groups, key, item)) == CatalogUrls(groups) + ItemUrls(item)
  {
    var r := AddToGroup(groups, key, item);
    var g := GroupOf(groups, key);
    assert (g + [item])[..|g|] == g;
    assert GroupUrls(r[key]) == GroupUrls(g) + ItemUrls(item);
    forall u | u in CatalogUrls(r)
      ensures u in CatalogUrls(groups) + ItemUrls(item)
    {
      var k :| k in r && u in GroupUrls(r[k]);
      if k != key {
        assert u in GroupUrls(groups[k]);
      } else if u in GroupUrls(g) {
        assert key in groups;
      }
    }
    forall u | u in CatalogUrls(groups) + ItemUrls(item)
      ensures u in CatalogUrls(r)
    {
      if u in ItemUrls(item) {
        assert u in GroupUrls(r[key]);
      } else {
        var k :| k in groups && u in GroupUrls(groups[k]);
        if k == key {
          assert u in GroupUrls(r[key]);
        } else {
          assert u in GroupUrls(r[k]);
        }
      }
    }
  }

  /** Every group of `a` is still there in `b`, with its items as a prefix:
      the catalog only grows. */
  ghost predicate Extends(a: Groups, b: Groups) {
    forall k :: k in a ==> k in b && a[k] <= b[k]
  }

  lemma ExtendsTransitive(a: Groups, b: Groups, c: Groups)
    requires Extends(a, b) && Extends(b, c)
    ensures Extends(a, c)
  {
    forall k | k in a
      ensures k in c && a[k] <= c[k]
    {
      assert a[k] == b[k][..|a[k]|];
      assert b[k] == c[k][..|b[k]|];
      assert a[k] == c[k][..|a[k]|];
    }
  }

  /** No two entries of `s` are equal. */
  predicate Distinct(s: seq<string>) {
    forall i, j :: 0 <= i < j < |s| ==> s[i] != s[j]
  }

  /** A new entry keeps a sequence distinct. */
  lemma DistinctAppend(s: seq<string>, x: string)
    requires Distinct(s) && x !in Elements(s)
    ensures Distinct(s + [x])
  {
    ElementsMember(s, x);
  }

  /** The dedup invariant: within an item its `url` and its content URLs are
      pairwise distinct, and no two items share a URL. */
  ghost predicate Unique(groups: Groups) {
    && (forall k, i :: k in groups && 0 <= i < |groups[k]| ==>
          Distinct([groups[k][i].url] + groups[k][i].content))
    && (forall k1, i1, k2, i2 ::
          k1 in groups && k2 in groups && 0 <= i1 < |groups[k1]| && 0 <= i2 < |groups[k2]| &&
          (k1 != k2 || i1 != i2) ==>
            ItemUrls(groups[k1][i1]) !! ItemUrls(groups[k2][i2]))
  }

  /** Appending an internally distinct item none of whose URLs the catalog
      holds keeps the catalog free of duplicates. */
  lemma AddToGroupUnique(groups: Groups, key: string, item: Item)
    requires Unique(groups)
    requires Distinct([item.url] + item.content)
    requires ItemUrls(item) !! CatalogUrls(groups)
    ensures Unique(AddToGroup(groups, key, item))
  {
    var r := AddToGroup(groups, key, item);
    var g := GroupOf(groups, key);
    forall k, i | k in r && 0 <= i < |r[k]| && !(k == key && i == |g|)
      ensures k in groups && i < |groups[k]| && r[k][i] == groups[k][i]
      ensures ItemUrls(r[k][i]) <= CatalogUrls(groups)
    {
      forall u | u in ItemUrls(r[k][i])
        ensures u in CatalogUrls(groups)
      {
        GroupUrlsMember(groups[k], u);
      }
    }
  }

  /** What a crawl works on: the processed set, the in-memory document, the
      save file and the log of every document saved. */
  datatype Crawl = Crawl(processed: set<string>, doc: Document, file: Option<Document>, saves: seq<Document>)

  /** Every URL of the in-memory catalog is in the processed set. */
  ghost predicate Covered(c: Crawl) {
    CatalogUrls(c.doc.groups) <= c.processed
  }

  /** A saved document whose checkpoint names one of the mirrors `ms`. */
  predicate Checkpointed(d: Document, ms: set<int>) {
    d.lastProcessed.Some? && d.lastProcessed.value.index in ms
  }

  /** What crawling the mirrors `ms` keeps from state `a` to state `b`:
      nothing is forgotten from the processed set or the catalog; coverage
      and freedom from duplicates survive; saves are only appended, and the
      in-memory document and the file change only by a save, after which the
      file holds the in-memory document; every save made names a crawled
      mirror. */
  ghost predicate Advanced(a: Crawl, b: Crawl, ms: set<int>) {
    && a.processed <= b.processed
    && Extends(a.doc.groups, b.doc.groups)
    && (Covered(a) ==> Covered(b))
    && (Covered(a) && Unique(a.doc.groups) ==> Unique(b.doc.groups))
    && a.saves <= b.saves
    && (|b.saves| == |a.saves| ==> b.file == a.file && b.doc == a.doc)
    && (|b.saves| > |a.saves| ==> b.file == Some(b.doc) && b.saves[|b.saves| - 1] == b.doc)
    && (forall k :: |a.saves| <= k < |b.saves| ==> Checkpointed(b.saves[k], ms))
  }

  /** A crawl that does nothing has advanced. */
  lemma AdvancedRefl(a: Crawl, ms: set<int>)
    ensures Advanced(a, a, ms)
  {
  }

  /** Two steps of a crawl make one, over the mirrors of both. */
  lemma AdvancedTrans(a: Crawl, b: Crawl, c: Crawl, s: set<int>, t: set<int>, u: set<int>)
    requires Advanced(a, b, s) && Advanced(b, c, t)
    requires s <= u && t <= u
    ensures Advanced(a, c, u)
  {
    ExtendsTransitive(a.doc.groups, b.doc.groups, c.doc.groups);
    forall k | |a.saves| <= k < |c.saves|
      ensures Checkpointed(c.saves[k], u)
    {
      if k < |b.saves| {
        assert c.saves[k] == b.saves[k];
      }
    }
  }

  /** Appending an item, moving the checkpoint and saving is a crawl step
      on the checkpoint's mirror. */
  lemma AppendAdvanced(a: Crawl, b: Crawl, key: string, item: Item, c: Checkpoint)
    requires b.processed == a.processed + ItemUrls(item)
    requires b.doc == Document(AddToGroup(a.doc.groups, key, item), Some(c))
    requires b.file == Some(b.doc) && b.saves == a.saves + [b.doc]
    requires Covered(a) && Unique(a.doc.groups) ==> Unique(b.doc.groups)
    ensures Advanced(a, b, {c.index})
  {
    AddToGroupUrls(a.doc.groups, key, item);
    assert Extends(a.doc.groups, b.doc.groups) by {
      forall k | k in a.doc.groups
        ensures k in b.doc.groups && a.doc.groups[k] <= b.doc.groups[k]
      {
        if k == key {
          assert b.doc.groups[k] == a.doc.groups[k] + [item];
        }
      }
    }
    assert Checkpointed(b.saves[|a.saves|], {c.index});
  }

  /** A crawl from a covered state, followed by dropping the checkpoint and
      saving: the catalog only grew, stays covered and free of duplicates if
      it was, the file holds the final document, and every earlier save of
      the run names a crawled mirror. */
  lemma FinalSave(a: Crawl, b: Crawl, c: Crawl, ms: set<int>)
    requires Advanced(a, b, ms) && Covered(a)
    requires c.processed == b.processed && c.doc == Document(b.doc.groups, None)
    requires c.file == Some(c.doc) && c.saves == b.saves + [c.doc]
    ensures a.processed <= c.processed && Extends(a.doc.groups, c.doc.groups) && Covered(c)
    ensures Unique(a.doc.groups) ==> Unique(c.doc.groups)
    ensures |c.saves| > |a.saves| && c.saves[|c.saves| - 1] == c.doc
    ensures forall k :: |a.saves| <= k < |c.saves| - 1 ==> Checkpointed(c.saves[k], ms)
  {
    forall k | |a.saves| <= k < |c.saves| - 1
      ensures Checkpointed(c.saves[k], ms)
    {
      assert c.saves[k] == b.saves[k];
    }
  }

  /** `xs.index(x)`: the first position of `x`, or `None` where Python
      raises `ValueError`. */
  function IndexOf(xs: seq<int>, x: int): (r: Option<nat>)
    ensures r.Some? ==> r.value < |xs| && xs[r.value] == x && forall j :: 0 <= j < r.value ==> xs[j] != x
    ensures r.None? <==> x !in xs
  {
    if xs == [] then None
    else if xs[0] == x then Some(0)
    else match IndexOf(xs[1..], x)
      case Some(i) => Some(i + 1)
      case None => None
  }

  /** `indexes.get("last_processed", {}).get("index", working_index[0])` */
  function StartIndex(doc: Document): int {
    match doc.lastProcessed
    case Some(c) => c.index
    case None => WorkingIndex[0]
  }

  /** Without a save file the crawl starts at the first mirror of the
      working index, 2. */
  lemma FreshStart()
    ensures StartIndex(FreshDocument) == 2 == WorkingIndex[0]
    ensures IndexOf(WorkingIndex, StartIndex(FreshDocument)) == Some(0)
  {
  }

  /** `marks` are increasing positions of `log`, at or after `from`, that
      hold the root URLs of the mirrors `ms` in order. */
  ghost predicate RootsAt(log: seq<string>, from: nat, ms: seq<int>, root: int -> string, marks: seq<nat>) {
    && |marks| == |ms|
    && (forall k :: 0 <= k < |marks| ==> from <= marks[k] < |log| && log[marks[k]] == root(ms[k]))
    && (forall k :: 0 < k < |marks| ==> marks[k - 1] < marks[k])
  }

  /** The root of every mirror of `ms` was fetched after position `from`
      of `log`, in the order of `ms`. */
  ghost predicate RootsFetched(log: seq<string>, from: nat, ms: seq<int>, root: int -> string) {
    exists marks :: RootsAt(log, from, ms, root, marks)
  }

  /** When the crawl of mirror `ms[j]` fetches its root first, the roots of
      `ms[..j + 1]` have been fetched in order. */
  lemma RootsAtStep(log: seq<string>, log': seq<string>, from: nat, ms: seq<int>, j: nat,
                    root: int -> string, marks: seq<nat>)
    requires j < |ms| && from <= |log| && RootsAt(log, from, ms[..j], root, marks)
    requires log < log' && log'[|log|] == root(ms[j])
    ensures RootsAt(log', from, ms[..j + 1], root, marks + [|log|])
  {
    forall k | 0 <= k < |marks|
      ensures log'[marks[k]] == root(ms[..j + 1][k])
    {
      assert log'[marks[k]] == log[marks[k]] && ms[..j][k] == ms[..j + 1][k];
    }
  }

  /** How a `create_index` run ends: it finishes, or it raises. */
  datatype Outcome =
    | Completed
      /** `working_index.index(start_index)` raised `ValueError`. */
    | StartNotListed(index: int)
      /** `soup.find_all` was called on the `None` of a failed fetch. */
    | FailedPageDereferenced(url: string)

  /** `f"{index}"` for a mirror number. */
  function MirrorNumber(index: int): string {
    if index < 0 then "-" + PyStr.NatToDecimal(-index) else PyStr.NatToDecimal(index)
  }
}
