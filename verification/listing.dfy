/** The forum listing and bookmarks parsers: one record per thread item that
    has a usable title link, and the "next page" link of a listing. */
module Listing {
  import opened Wrappers
  import opened Text
  import opened Config
  import opened Urls
  import opened Values
  import opened Lists
  import opened Version
  import opened Extractor
  import opened Breadcrumbs

  /** A title link: its stripped text and its `href`, when it has one. */
  datatype Link = Link(text: string, href: Option<string>)

  /** A thumbnail `img`: its `src` and `data-src` attributes. */
  datatype Thumb = Thumb(src: Option<string>, dataSrc: Option<string>)

  /** A time element: its `datetime` and `title` attributes. */
  datatype Stamp = Stamp(datetime: Option<string>, title: Option<string>)

  /** A thread item as the parsers select from it. `primary` is the forum's
      `.structItem-title a[data-tp-primary]`; `link` is the first title link
      (`.structItem-title a` on a forum page, `.contentRow-title a,
      .structItem-title a` on the bookmarks page); `snippet` is the stripped
      text of the preview, read by the bookmarks parser only. */
  datatype Item = Item(
    primary: Option<Link>,
    link: Option<Link>,
    labels: seq<LabelNode>,
    thumb: Option<Thumb>,
    stamp: Option<Stamp>,
    snippet: Option<string>)

  /** `a.pageNav-jump--next`: its classes and its `href`. */
  datatype NextLink = NextLink(classes: seq<string>, href: Option<string>)

  datatype ForumPage = ForumPage(trail: Option<Trail>, items: seq<Item>, next: Option<NextLink>)

  /** The bookmarks page's three candidate item lists: bookmark rows, any
      content rows, and struct items. */
  datatype BookmarksPage = BookmarksPage(
    bookmarkRows: seq<Item>,
    contentRows: seq<Item>,
    structItems: seq<Item>,
    next: Option<NextLink>)

  // ----- engine and status ------------------------------------------------

  /** The listing parsers look a class up only when it starts with `label--`. */
  function PrefixedEngine(classes: seq<string>): Option<string> {
    if classes == [] then None
    else if StartsWith(classes[0], "label--") && EngineOf(classes[0]).Some? then EngineOf(classes[0])
    else PrefixedEngine(classes[1..])
  }

  function ListingEngine(labels: seq<LabelNode>): string {
    if labels == [] then Unknown
    else
      match PrefixedEngine(labels[0].classes)
      case Some(e) => e
      case None => ListingEngine(labels[1..])
  }

  /** Every class of the engine table starts with `label--`. */
  lemma EngineClassesPrefixed(cls: string)
    requires EngineOf(cls).Some?
    ensures StartsWith(cls, "label--")
  {
    var k :| 0 <= k < |EngineLabels| && EngineLabels[k].0 == cls;
  }

  lemma {:induction false} PrefixedEngineAgrees(classes: seq<string>)
    ensures PrefixedEngine(classes) == ClassesEngine(classes)
  {
    if classes != [] {
      if EngineOf(classes[0]).Some? {
        EngineClassesPrefixed(classes[0]);
      } else {
        PrefixedEngineAgrees(classes[1..]);
      }
    }
  }

  /** The listings' `label--` filter changes nothing: a listing item gets the
      engine the thread page's rule gives for the same labels. */
  lemma {:induction false} ListingEngineAgrees(labels: seq<LabelNode>)
    ensures ListingEngine(labels) == EngineFromLabels(labels)
  {
    if labels != [] {
      PrefixedEngineAgrees(labels[0].classes);
      ListingEngineAgrees(labels[1..]);
    }
  }

  const ForumStatuses: seq<string> := ["Completed", "Ongoing", "Abandoned", "On Hold"]
  const BookmarkStatuses: seq<string> := ["Completed", "Ongoing", "Abandoned", "On Hold", "On-Hold"]

  /** The first label text that is exactly one of the keywords. */
  function FirstStatus(texts: seq<string>, keywords: seq<string>): (r: string)
    ensures (forall t :: t in texts ==> t !in keywords) ==> r == Unknown
    ensures (exists t :: t in texts && t in keywords) ==> exists i :: (0 <= i < |texts| && r == texts[i]
      && r in keywords && forall i2 :: 0 <= i2 < i ==> texts[i2] !in keywords)
  {
    if texts == [] then Unknown
    else if texts[0] in keywords then texts[0]
    else
      var r := FirstStatus(texts[1..], keywords);
      assert forall t :: t in texts ==> t == texts[0] || t in texts[1..];
      assert (exists t :: t in texts && t in keywords) ==> exists i :: (0 <= i < |texts| && r == texts[i]
        && r in keywords && forall i2 :: 0 <= i2 < i ==> texts[i2] !in keywords) by {
        if exists t :: t in texts && t in keywords {
          var t :| t in texts && t in keywords;
          assert t in texts[1..];
          var i :| 0 <= i < |texts[1..]| && r == texts[1..][i]
            && r in keywords && forall i2 :: 0 <= i2 < i ==> texts[1..][i2] !in keywords;
          assert r == texts[i + 1];
          forall i2 | 0 <= i2 < i + 1 ensures texts[i2] !in keywords {
            if i2 > 0 { assert texts[i2] == texts[1..][i2 - 1]; }
          }
        }
      }
      r
  }

  function LabelTexts(labels: seq<LabelNode>): (r: seq<string>)
    ensures |r| == |labels| && forall i :: 0 <= i < |r| ==> r[i] == labels[i].text
  {
    seq(|labels|, i requires 0 <= i < |labels| => labels[i].text)
  }

  // ----- one item ---------------------------------------------------------

  /** The fields both parsers read from an item. */
  datatype Common = Common(
    title: string,
    url: string,
    threadId: Option<string>,
    version: string,
    engine: string,
    status: string,
    cover: string,
    lastUpdate: string,
    labels: seq<string>)

  /** The item's URL: the link's `href` joined when relative; `None` when
      there is none or the join raises. */
  function ItemUrl(link: Link): (r: Option<string>)
    ensures r.Some? ==> r.value != []
    ensures r.Some? && StartsWith(link.href.GetOr([]), "http") ==> r.value == link.href.value
  {
    match JoinIfRelative(link.href.GetOr([]))
    case None => None
    case Some(u) => if u == [] then None else Some(u)
  }

  /** The thumbnail URL: `src`, else `data-src`, joined when relative; `None`
      when the join raises. */
  function CoverUrl(thumb: Option<Thumb>): (r: Option<string>)
    ensures thumb.None? ==> r == Some([])
  {
    match thumb
    case None => Some([])
    case Some(t) => JoinIfRelative(OrElse(t.src, t.dataSrc.GetOr([])))
  }

  /** What an item gives, or `None` when it is skipped: no title link, no
      URL, or a URL that cannot be joined. */
  function ParseCommon(link: Option<Link>, item: Item, keywords: seq<string>): (r: Option<Common>)
    ensures r.Some? <==> link.Some? && ItemUrl(link.value).Some? && CoverUrl(item.thumb).Some?
    ensures r.Some? ==> (r.value.title == link.value.text
      && r.value.url == ItemUrl(link.value).value
      && r.value.threadId == ExtractThreadId(r.value.url)
      && r.value.version == ExtractVersion(r.value.title)
      && r.value.engine == EngineFromLabels(item.labels)
      && r.value.status == FirstStatus(LabelTexts(item.labels), keywords)
      && r.value.labels == LabelTexts(item.labels))
  {
    match link
    case None => None
    case Some(l) =>
      match ItemUrl(l)
      case None => None
      case Some(url) =>
        match CoverUrl(item.thumb)
        case None => None
        case Some(cover) =>
          var texts := LabelTexts(item.labels);
          var lastUpdate :=
            match item.stamp
            case None => []
            case Some(s) => OrElse(s.datetime, s.title.GetOr([]));
          ListingEngineAgrees(item.labels);
          Some(Common(l.text, url, ExtractThreadId(url), ExtractVersion(l.text),
            ListingEngine(item.labels), FirstStatus(texts, keywords), cover, lastUpdate, texts))
  }

  /** The keys both parsers fill from the item's common fields. */
  const CommonKeys: set<Key> :=
    {KTitle, KUrl, KThreadId, KVersion, KEngine, KStatus, KCoverImage, KLastUpdate, KLabels}

  /** The value a common field gives a key. */
  function CommonField(c: Common, k: Key): Value {
    match k
    case KTitle => VStr(c.title)
    case KUrl => VStr(c.url)
    case KThreadId => OptStr(c.threadId)
    case KVersion => VStr(c.version)
    case KEngine => VStr(c.engine)
    case KStatus => VStr(c.status)
    case KCoverImage => VStr(c.cover)
    case KLastUpdate => VStr(c.lastUpdate)
    case KLabels => VList(c.labels)
    case _ => VNone
  }

  /** The part of a record both parsers build alike. */
  function CommonRecord(c: Common): (r: Record)
    ensures r.Keys == CommonKeys
    ensures forall k :: k in r ==> r[k] == CommonField(c, k)
  {
    map k | k in CommonKeys :: CommonField(c, k)
  }

  /** The fields both record builders read back from the common part. */
  lemma CommonFields(c: Common)
    ensures var r := CommonRecord(c);
      && Get(r, KUrl) == VStr(c.url) && Get(r, KThreadId) == OptStr(c.threadId)
      && Get(r, KTitle) == VStr(c.title) && Get(r, KVersion) == VStr(c.version)
      && Get(r, KEngine) == VStr(c.engine) && Get(r, KStatus) == VStr(c.status)
      && KIsBookmarked !in r && KCategory !in r && KForumId !in r
  {
    var r := CommonRecord(c);
    assert KUrl in CommonKeys && KThreadId in CommonKeys && KTitle in CommonKeys;
    assert KVersion in CommonKeys && KEngine in CommonKeys && KStatus in CommonKeys;
  }

  /** The record of a forum item: the common fields, the page's category and
      forum id, and an empty developer; it is not flagged as bookmarked. */
  function ForumRecord(c: Common, category: string, forumId: Option<string>): (r: Record)
    ensures Get(r, KCategory) == VStr(category) && Get(r, KForumId) == OptStr(forumId)
    ensures Get(r, KDeveloper) == VStr([]) && KIsBookmarked !in r
    ensures Get(r, KUrl) == VStr(c.url) && Get(r, KThreadId) == OptStr(c.threadId)
    ensures Get(r, KTitle) == VStr(c.title) && Get(r, KVersion) == VStr(c.version)
    ensures Get(r, KEngine) == VStr(c.engine) && Get(r, KStatus) == VStr(c.status)
  {
    CommonFields(c);
    CommonRecord(c)[KCategory := VStr(category)][KForumId := OptStr(forumId)][KDeveloper := VStr([])]
  }

  /** `_parse_thread_item`: `None` when the item is skipped. */
  function ForumItem(item: Item, category: string, forumId: Option<string>): (r: Option<Record>)
    ensures r.Some? <==> ParseCommon(TitleLink(item), item, ForumStatuses).Some?
    ensures r.Some? ==> r.value == ForumRecord(ParseCommon(TitleLink(item), item, ForumStatuses).value, category, forumId)
  {
    match ParseCommon(TitleLink(item), item, ForumStatuses)
    case None => None
    case Some(c) => Some(ForumRecord(c, category, forumId))
  }

  /** The forum's title link: the primary one, else the first. */
  function TitleLink(item: Item): (r: Option<Link>)
    ensures item.primary.Some? ==> r == item.primary
    ensures item.primary.None? ==> r == item.link
  {
    if item.primary.Some? then item.primary else item.link
  }

  /** The record of a bookmarked item: the common fields, the preview as
      description, an empty developer and the bookmark flag; it has no
      category and no forum id. */
  function BookmarkRecord(c: Common, snippet: Option<string>): (r: Record)
    ensures Get(r, KIsBookmarked) == VBool(true) && Get(r, KDeveloper) == VStr([])
    ensures Get(r, KDescription) == VStr(snippet.GetOr([]))
    ensures KCategory !in r && KForumId !in r
    ensures Get(r, KUrl) == VStr(c.url) && Get(r, KThreadId) == OptStr(c.threadId)
    ensures Get(r, KTitle) == VStr(c.title) && Get(r, KVersion) == VStr(c.version)
    ensures Get(r, KEngine) == VStr(c.engine) && Get(r, KStatus) == VStr(c.status)
  {
    CommonFields(c);
    CommonRecord(c)[KDescription := VStr(snippet.GetOr([]))][KIsBookmarked := VBool(true)][KDeveloper := VStr([])]
  }

  /** `_parse_bookmark_item` with the flag `parse_bookmarks_page` sets. */
  function BookmarkItem(item: Item): (r: Option<Record>)
    ensures r.Some? <==> ParseCommon(item.link, item, BookmarkStatuses).Some?
    ensures r.Some? ==> r.value == BookmarkRecord(ParseCommon(item.link, item, BookmarkStatuses).value, item.snippet)
  {
    match ParseCommon(item.link, item, BookmarkStatuses)
    case None => None
    case Some(c) => Some(BookmarkRecord(c, item.snippet))
  }

  // ----- pages ------------------------------------------------------------

  /** A page of a forum outside the catalogued ones gives nothing: its forum
      id is known, non-empty and not allowed. */
  predicate ForumRejected(forumId: Option<string>) {
    forumId.Some? && forumId.value != [] && !IsAllowedForum(forumId.value, None)
  }

  /** `parse_forum_page`. */
  function ParseForumPage(page: ForumPage): (r: seq<Record>)
    ensures ForumRejected(GetForumId(page.trail)) ==> r == []
    ensures |r| <= |page.items|
    ensures forall rec :: rec in r ==> (Get(rec, KCategory) == VStr(GetCategory(ParseBreadcrumbs(page.trail)))
      && Get(rec, KForumId) == OptStr(GetForumId(page.trail)))
    ensures !ForumRejected(GetForumId(page.trail)) ==> forall item :: (item in page.items
      && ParseCommon(TitleLink(item), item, ForumStatuses).Some?
      ==> exists rec :: (rec in r
        && Get(rec, KUrl) == VStr(ParseCommon(TitleLink(item), item, ForumStatuses).value.url)))
  {
    var category := GetCategory(ParseBreadcrumbs(page.trail));
    var forumId := GetForumId(page.trail);
    if ForumRejected(forumId) then []
    else
      var f := (item: Item) => ForumItem(item, category, forumId);
      var r := Choose(page.items, f);
      assert forall item :: (item in page.items && ParseCommon(TitleLink(item), item, ForumStatuses).Some?
        ==> f(item).value in r);
      r
  }

  /** The first of the three item lists that is not empty. */
  function BookmarkContainers(page: BookmarksPage): (r: seq<Item>)
    ensures page.bookmarkRows != [] ==> r == page.bookmarkRows
    ensures page.bookmarkRows == [] && page.contentRows != [] ==> r == page.contentRows
    ensures page.bookmarkRows == [] && page.contentRows == [] ==> r == page.structItems
  {
    if page.bookmarkRows != [] then page.bookmarkRows
    else if page.contentRows != [] then page.contentRows
    else page.structItems
  }

  /** `parse_bookmarks_page`: every record is flagged as bookmarked. */
  function ParseBookmarksPage(page: BookmarksPage): (r: seq<Record>)
    ensures |r| <= |BookmarkContainers(page)|
    ensures forall rec :: rec in r ==> Get(rec, KIsBookmarked) == VBool(true)
    ensures forall item :: (item in BookmarkContainers(page) && ParseCommon(item.link, item, BookmarkStatuses).Some?
      ==> exists rec :: rec in r && Get(rec, KUrl) == VStr(ParseCommon(item.link, item, BookmarkStatuses).value.url))
  {
    var r := Choose(BookmarkContainers(page), BookmarkItem);
    assert forall item :: (item in BookmarkContainers(page) && ParseCommon(item.link, item, BookmarkStatuses).Some?
      ==> BookmarkItem(item).value in r);
    r
  }

  /** Both parsers keep the items' order: the records of two runs of items
      are the records of the first run followed by those of the second. */
  lemma ForumRecordsInOrder(xs: seq<Item>, ys: seq<Item>, category: string, forumId: Option<string>)
    ensures var f := (item: Item) => ForumItem(item, category, forumId);
      Choose(xs + ys, f) == Choose(xs, f) + Choose(ys, f)
  {
    ChooseAppend(xs, ys, (item: Item) => ForumItem(item, category, forumId));
  }

  // ----- next page --------------------------------------------------------

  /** `has_next_page`. */
  function HasNextPage(next: Option<NextLink>): (r: bool)
    ensures r <==> next.Some? && "is-disabled" !in next.value.classes
  {
    next.Some? && "is-disabled" !in next.value.classes
  }

  /** `get_next_page_url`: `Err` when joining the `href` raises. */
  function NextPageUrl(next: Option<NextLink>): (r: Result<Option<string>, string>)
    ensures !HasNextPage(next) ==> r == Ok(None)
    ensures r.Ok? && r.value.Some? ==> HasNextPage(next) && r.value.value != []
    ensures HasNextPage(next) && StartsWith(next.value.href.GetOr([]), "http")
      ==> r == Ok(Some(next.value.href.value))
    ensures r.Ok? && r.value.Some? && !StartsWith(next.value.href.GetOr([]), "http")
      ==> Absolute(r.value.value)
    ensures HasNextPage(next) && next.value.href.GetOr([]) == [] ==> r == Ok(None)
  {
    if !HasNextPage(next) then Ok(None)
    else
      var href := next.value.href.GetOr([]);
      match JoinIfRelative(href)
      case None => Err("invalid URL")
      case Some(u) =>
        assert href != [] && !StartsWith(href, "http") ==> Absolute(u) by {
          if href != [] && !StartsWith(href, "http") {
            JoinIsAbsolute(href);
          }
        }
        if u == [] then Ok(None) else Ok(Some(u))
  }
}
