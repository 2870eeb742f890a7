/** The crawl loops of the scraper: the image cache, the paginated walk over
    a forum, the retried scrape of a thread and the update check. */
module Crawl {
  /* The browser and the HTTP session are inputs: what each visit or request
     gives. Waits between requests are left out; the delays the retry loop
     would sleep are returned. */
  import opened Wrappers
  import opened Text
  import opened Config
  import opened Urls
  import opened Values
  import opened Version
  import opened Breadcrumbs
  import opened Page
  import opened Listing

  // ----- image cache ------------------------------------------------------

  /** What a GET of an image URL gives: an exception (a connection error, a
      timeout or an error status), or a response with its `Content-Type`. */
  datatype Fetched = Raised | Served(contentType: string)

  /** The HTTP session and the hex digest of `hashlib.md5`. */
  datatype Net = Net(get: string -> Fetched, md5: string -> string)

  /** The thumbnail and header-image directories, relative to the install. */
  const ThumbsDir: string := "data/thumbs"
  const HeadersDir: string := "data/headers"

  /** The cache file of an image: the digest of the absolute URL followed by
      the context, with a `.jpg` suffix. */
  function CacheFile(dir: string, url: string, context: string, net: Net): (p: string)
    ensures p != []
  {
    dir + "/" + net.md5(url + context) + ".jpg"
  }

  /** Making the URL absolute raises: `urljoin` rejects it. */
  predicate Unjoinable(url: string) {
    MakeAbsolute(url).None?
  }

  /** A response the image is saved from. */
  predicate ImageServed(f: Fetched) {
    f.Served? && Contains(f.contentType, "image")
  }

  /** What `download_image` gives: the path returned ("" on failure), the
      cache files afterwards, and whether a request was made. */
  datatype ImageDownload = ImageDownload(path: string, files: set<string>, requested: bool)

  /** `download_image`: the cached file when it exists, with no request;
      otherwise the file saved from an image response, or "" when the
      request raises or the response is not an image. Making the URL
      absolute happens before the `try`, so a URL `urljoin` rejects raises
      (`Err`). */
  function DownloadImage(url: string, context: string, dir: string, files: set<string>, net: Net)
    : (r: Result<ImageDownload, string>)
    ensures r.Err? <==> Unjoinable(url)
    ensures url == [] ==> r == Ok(ImageDownload([], files, false))
    ensures r.Ok? && url != [] ==>
      var p := CacheFile(dir, MakeAbsolute(url).value, context, net);
      (p in files ==> r.value == ImageDownload(p, files, false))
      && (p !in files ==> r.value.requested && (r.value.path != [] <==> ImageServed(net.get(MakeAbsolute(url).value))))
      && (r.value.path == [] || r.value.path == p)
    ensures r.Ok? ==> r.value.files == if r.value.path == [] then files else files + {r.value.path}
  {
    if url == [] then Ok(ImageDownload([], files, false))
    else
      match MakeAbsolute(url)
      case None => Err("Invalid URL")
      case Some(abs) =>
        var p := CacheFile(dir, abs, context, net);
        if p in files then Ok(ImageDownload(p, files, false))
        else if ImageServed(net.get(abs)) then Ok(ImageDownload(p, files + {p}, true))
        else Ok(ImageDownload([], files, true))
  }

  /** Once an image is downloaded, asking for the same URL and context again
      gives the same path from the cache, with no request, whatever the
      network does by then. */
  lemma DownloadAgain(url: string, context: string, dir: string, files: set<string>, net: Net, later: Net)
    requires later.md5 == net.md5
    requires DownloadImage(url, context, dir, files, net).Ok?
    requires DownloadImage(url, context, dir, files, net).value.path != []
    ensures var d := DownloadImage(url, context, dir, files, net).value;
      DownloadImage(url, context, dir, d.files, later) == Ok(ImageDownload(d.path, d.files, false))
  {
    var abs := MakeAbsolute(url).value;
    assert CacheFile(dir, abs, context, later) == CacheFile(dir, abs, context, net);
  }

  /** Two downloads that both succeed give the same path for the same URL
      and context, whatever the cache held before each. */
  lemma DownloadPathFixed(url: string, context: string, dir: string, files1: set<string>, files2: set<string>,
                          net: Net)
    requires DownloadImage(url, context, dir, files1, net).Ok? && DownloadImage(url, context, dir, files2, net).Ok?
    requires DownloadImage(url, context, dir, files1, net).value.path != []
    requires DownloadImage(url, context, dir, files2, net).value.path != []
    ensures DownloadImage(url, context, dir, files1, net).value.path
         == DownloadImage(url, context, dir, files2, net).value.path
  {
  }

  // ----- thumbnails of a listing page ------------------------------------

  /** `game.get('url', '')`, the context of a thumbnail. */
  function ContextOf(game: Record): string {
    if Get(game, KUrl).VStr? then Get(game, KUrl).s else []
  }

  /** The cover image of a record, when it is non-empty text (every cover a
      parser gives is text). */
  function CoverOf(game: Record): Option<string> {
    var v := Get(game, KCoverImage);
    if v.VStr? && v.s != [] then Some(v.s) else None
  }

  /** Downloading the cover of a record raises. */
  predicate CoverRaises(game: Record) {
    CoverOf(game).Some? && Unjoinable(CoverOf(game).value)
  }

  /** No cover of a page's records makes the thumbnail loop raise. */
  predicate Clean(games: seq<Record>) {
    forall g :: g in games ==> !CoverRaises(g)
  }

  /** A record with its cover image left out. */
  function Uncovered(game: Record): Record {
    game - {KCoverImage}
  }

  function UncoverAll(games: seq<Record>): (r: seq<Record>)
    ensures |r| == |games|
    ensures forall i :: 0 <= i < |r| ==> r[i] == Uncovered(games[i])
    decreases |games|
  {
    if games == [] then [] else [Uncovered(games[0])] + UncoverAll(games[1..])
  }

  lemma UncoverAppend(a: seq<Record>, b: seq<Record>)
    ensures UncoverAll(a + b) == UncoverAll(a) + UncoverAll(b)
  {
    assert forall i :: 0 <= i < |a + b| ==> UncoverAll(a + b)[i] == (UncoverAll(a) + UncoverAll(b))[i];
  }

  /** Setting a key and then dropping it leaves what dropping it leaves. */
  lemma DropAfterSet<K, V>(d: map<K, V>, key: K, v: V)
    ensures d[key := v] - {key} == d - {key}
    ensures key !in d ==> d - {key} == d
  {
    var a := d[key := v] - {key};
    var b := d - {key};
    assert a.Keys == b.Keys;
    assert key !in d ==> b.Keys == d.Keys;
  }

  /** A cover that names a cache file, or the "" of a failed download. */
  predicate Local(game: Record, files: set<string>) {
    Get(game, KCoverImage).VStr? && (Get(game, KCoverImage).s == [] || Get(game, KCoverImage).s in files)
  }

  /** The thumbnails of one listing page and the cache files afterwards;
      `None` when a download raised, which ends the page. */
  datatype Localised = Localised(games: Option<seq<Record>>, files: set<string>)

  /** One record of the thumbnail loop: a non-empty cover replaced by what
      downloading it gives; `Err` when the download raises. */
  function LocaliseOne(g: Record, files: set<string>, net: Net): (r: Result<(Record, set<string>), string>)
    ensures r.Err? <==> CoverRaises(g)
    ensures r.Ok? ==> Uncovered(r.value.0) == Uncovered(g) && files <= r.value.1
    ensures r.Ok? && CoverOf(g).Some? ==> Local(r.value.0, r.value.1)
    ensures r.Ok? && CoverOf(g).None? ==> r.value == (g, files)
  {
    match CoverOf(g)
    case None => Ok((g, files))
    case Some(cover) =>
      match DownloadImage(cover, ContextOf(g), ThumbsDir, files, net)
      case Err(e) => Err(e)
      case Ok(d) =>
        DropAfterSet(g, KCoverImage, VStr(d.path));
        Ok((g[KCoverImage := VStr(d.path)], d.files))
  }

  /** The thumbnail loop of `scan_forum`: each non-empty cover replaced by
      what downloading it gives, nothing else changed. */
  function Localise(games: seq<Record>, files: set<string>, net: Net): (r: Localised)
    ensures r.games.Some? <==> Clean(games)
    ensures r.games.Some? ==> UncoverAll(r.games.value) == UncoverAll(games)
    ensures r.games.Some? ==> forall i :: 0 <= i < |games| ==>
      (CoverOf(games[i]).Some? ==> Local(r.games.value[i], r.files))
      && (CoverOf(games[i]).None? ==> r.games.value[i] == games[i])
    ensures files <= r.files
    decreases |games|
  {
    if games == [] then Localised(Some([]), files)
    else
      assert forall x :: x in games <==> x == games[0] || x in games[1..];
      match LocaliseOne(games[0], files, net)
      case Err(_) => Localised(None, files)
      case Ok((h, files1)) =>
        var rest := Localise(games[1..], files1, net);
        if rest.games.None? then rest
        else
          var gs := [h] + rest.games.value;
          LocalisedCons(games, h, files1, rest.games.value, rest.files);
          Localised(Some(gs), rest.files)
  }

  lemma LocalisedCons(games: seq<Record>, h: Record, files1: set<string>, rest: seq<Record>, files: set<string>)
    requires games != [] && |rest| == |games| - 1 && files1 <= files
    requires Uncovered(h) == Uncovered(games[0])
    requires CoverOf(games[0]).Some? ==> Local(h, files1)
    requires CoverOf(games[0]).None? ==> h == games[0]
    requires UncoverAll(rest) == UncoverAll(games[1..])
    requires forall i :: 0 <= i < |games| - 1 ==>
      (CoverOf(games[1..][i]).Some? ==> Local(rest[i], files))
      && (CoverOf(games[1..][i]).None? ==> rest[i] == games[1..][i])
    ensures UncoverAll([h] + rest) == UncoverAll(games)
    ensures forall i :: 0 <= i < |games| ==>
      (CoverOf(games[i]).Some? ==> Local(([h] + rest)[i], files))
      && (CoverOf(games[i]).None? ==> ([h] + rest)[i] == games[i])
  {
    var gs := [h] + rest;
    assert UncoverAll(gs) == [Uncovered(h)] + UncoverAll(rest);
    assert forall i :: 1 <= i < |games| ==> gs[i] == rest[i - 1] && games[i] == games[1..][i - 1];
  }

  // ----- the forum walk ---------------------------------------------------

  /** What the browser gives on visiting a listing page: the page, or a
      timeout, or another exception. */
  datatype Visit = Loaded(page: ForumPage) | TimedOut | Failed

  /** The URL the walk moves to after a page: `None` when the page has no
      enabled next link, or its next URL is empty, equal to the current one,
      or cannot be joined (an exception, after the page's games are kept). */
  function Follow(url: string, next: Option<NextLink>): (r: Option<string>)
    ensures r.Some? <==> (HasNextPage(next) && NextPageUrl(next).Ok? && NextPageUrl(next).value.Some?
      && NextPageUrl(next).value.value != url)
    ensures r.Some? ==> r.value == NextPageUrl(next).value.value && r.value != [] && r.value != url
  {
    if !HasNextPage(next) then None
    else
      match NextPageUrl(next)
      case Err(_) => None
      case Ok(n) => if n.Some? && n.value != url then n else None
  }

  /** What a walk gives: the games in page order, the URLs visited in
      order, and the cache files afterwards. */
  datatype Scan = Scan(games: seq<Record>, visited: seq<string>, files: set<string>)

  /** The browser and the listing parser the walk uses. */
  datatype Site = Site(visit: string -> Visit, parse: ForumPage -> seq<Record>)

  /** A forum as `scan_forum` reads it: pages parsed by `parse_forum_page`. */
  function Forum(browse: string -> Visit): (site: Site)
    ensures site.visit == browse && site.parse == ParseForumPage
  {
    Site(browse, ParseForumPage)
  }

  /** The pages left from page number `pageNum` when at most `maxPages` are
      visited. */
  function Budget(pageNum: nat, maxPages: int): nat {
    if pageNum <= maxPages then maxPages - pageNum + 1 else 0
  }

  /** The walk goes on from `u` to `v`: `u` loaded, its thumbnails did not
      raise, and its next URL is `v`. */
  predicate Moves(site: Site, u: string, v: string) {
    NextOf(site, u) == Some(v)
  }

  /** A page the walk cannot go on from. */
  predicate Ends(site: Site, u: string) {
    NextOf(site, u).None?
  }

  /** Where the walk goes after `u`: the next URL of a page that loaded and
      whose thumbnails did not raise. */
  function NextOf(site: Site, u: string): Option<string> {
    if site.visit(u).Loaded? && Clean(site.parse(site.visit(u).page)) then Follow(u, site.visit(u).page.next)
    else None
  }

  /** The games a visited page contributes, covers aside: its parsed records
      when it loaded and its thumbnails did not raise, else none. */
  function Yield(site: Site, u: string): seq<Record> {
    if site.visit(u).Loaded? && Clean(site.parse(site.visit(u).page)) then UncoverAll(site.parse(site.visit(u).page))
    else []
  }

  /** What one pass of the loop gives: the page's games, the cache files
      afterwards, and the URL to go on to. */
  datatype Step = Step(games: seq<Record>, files: set<string>, next: Option<string>)

  /** One pass of the loop of `scan_forum` at `url`: visit, parse, download
      the thumbnails, and look for the next page. A timeout or another
      exception keeps nothing of the page. */
  function PageStep(url: string, site: Site, files: set<string>, net: Net): (r: Step)
    ensures r.next.Some? ==> Moves(site, url, r.next.value) && r.next.value != []
    ensures r.next.None? ==> Ends(site, url)
    ensures UncoverAll(r.games) == Yield(site, url)
    ensures files <= r.files
  {
    match site.visit(url)
    case TimedOut => Step([], files, None)
    case Failed => Step([], files, None)
    case Loaded(page) =>
      var loc := Localise(site.parse(page), files, net);
      if loc.games.None? then Step([], loc.files, None)
      else Step(loc.games.value, loc.files, Follow(url, page.next))
  }

  /** The loop of `scan_forum` from page number `pageNum` at `url`. */
  function Walk(url: string, pageNum: nat, maxPages: int, site: Site, files: set<string>, net: Net)
    : (r: Scan)
    ensures |r.visited| <= Budget(pageNum, maxPages)
    ensures url == [] || pageNum > maxPages ==> r == Scan([], [], files)
    ensures url != [] && pageNum <= maxPages ==> r.visited != [] && r.visited[0] == url
    ensures files <= r.files
    decreases Budget(pageNum, maxPages)
  {
    if url == [] || pageNum > maxPages then Scan([], [], files)
    else
      var st := PageStep(url, site, files, net);
      match st.next
      case None => Scan(st.games, [url], st.files)
      case Some(next) =>
        var rest := Walk(next, pageNum + 1, maxPages, site, st.files, net);
        Scan(st.games + rest.games, [url] + rest.visited, rest.files)
  }

  /** `scan_forum`: the walk from the forum's first page. */
  function ScanForum(forumUrl: string, maxPages: int, browse: string -> Visit, files: set<string>, net: Net)
    : (r: Scan)
    ensures maxPages >= 0 ==> |r.visited| <= maxPages
    ensures maxPages < 1 || forumUrl == [] ==> r == Scan([], [], files)
    ensures maxPages >= 1 && forumUrl != [] ==> r.visited != [] && r.visited[0] == forumUrl
  {
    Walk(forumUrl, 1, maxPages, Forum(browse), files, net)
  }

  /** Each URL of a run leads to the next one. */
  predicate Chain(site: Site, v: seq<string>)
    decreases |v|
  {
    |v| <= 1 || (Moves(site, v[0], v[1]) && Chain(site, v[1..]))
  }

  lemma {:induction false} ChainAt(site: Site, v: seq<string>, k: nat)
    requires Chain(site, v) && k + 1 < |v|
    ensures Moves(site, v[k], v[k + 1])
    decreases k
  {
    if k > 0 {
      ChainAt(site, v[1..], k - 1);
      assert v[1..][k - 1] == v[k] && v[1..][k] == v[k + 1];
    }
  }

  /** Each visited page leads to the next one visited. */
  lemma {:induction false} WalkChained(url: string, pageNum: nat, maxPages: int, site: Site,
                                       files: set<string>, net: Net)
    ensures Chain(site, Walk(url, pageNum, maxPages, site, files, net).visited)
    decreases Budget(pageNum, maxPages)
  {
    if url != [] && pageNum <= maxPages {
      var st := PageStep(url, site, files, net);
      if st.next.Some? {
        var next := st.next.value;
        WalkChained(next, pageNum + 1, maxPages, site, st.files, net);
        var rest := Walk(next, pageNum + 1, maxPages, site, st.files, net).visited;
        var v := Walk(url, pageNum, maxPages, site, files, net).visited;
        assert v == [url] + rest;
        assert v[1..] == rest;
      }
    }
  }

  /** The walk stops only at a page it cannot go on from, or when the page
      budget is spent. */
  lemma {:induction false} WalkStops(url: string, pageNum: nat, maxPages: int, site: Site,
                                     files: set<string>, net: Net)
    ensures var v := Walk(url, pageNum, maxPages, site, files, net).visited;
      v != [] ==> Ends(site, v[|v| - 1]) || |v| == Budget(pageNum, maxPages)
    decreases Budget(pageNum, maxPages)
  {
    if url != [] && pageNum <= maxPages {
      var st := PageStep(url, site, files, net);
      if st.next.Some? {
        var next := st.next.value;
        WalkStops(next, pageNum + 1, maxPages, site, st.files, net);
        var rest := Walk(next, pageNum + 1, maxPages, site, st.files, net).visited;
        var v := Walk(url, pageNum, maxPages, site, files, net).visited;
        assert v == [url] + rest;
        if rest != [] {
          assert v[|v| - 1] == rest[|rest| - 1];
        }
      }
    }
  }

  /** The games of a run of visited pages, in page order. */
  function Gather(site: Site, urls: seq<string>): (r: seq<Record>)
    decreases |urls|
  {
    if urls == [] then [] else Yield(site, urls[0]) + Gather(site, urls[1..])
  }

  lemma {:induction false} GatherAppend(site: Site, a: seq<string>, b: seq<string>)
    ensures Gather(site, a + b) == Gather(site, a) + Gather(site, b)
    decreases |a|
  {
    if a != [] {
      var ab := a + b;
      assert ab[0] == a[0] && ab[1..] == a[1..] + b;
      GatherAppend(site, a[1..], b);
      var y := Yield(site, a[0]);
      calc {
        Gather(site, ab);
        y + Gather(site, a[1..] + b);
        y + (Gather(site, a[1..]) + Gather(site, b));
        (y + Gather(site, a[1..])) + Gather(site, b);
        Gather(site, a) + Gather(site, b);
      }
    } else {
      assert a + b == b;
    }
  }

  /** The games of a walk are those of the pages it visited, in page order,
      with only their covers changed. */
  lemma {:induction false} WalkGathers(url: string, pageNum: nat, maxPages: int, site: Site,
                                       files: set<string>, net: Net)
    ensures var r := Walk(url, pageNum, maxPages, site, files, net);
      UncoverAll(r.games) == Gather(site, r.visited)
    decreases Budget(pageNum, maxPages)
  {
    if url != [] && pageNum <= maxPages {
      var st := PageStep(url, site, files, net);
      assert [url][1..] == [];
      if st.next.Some? {
        var next := st.next.value;
        var rest := Walk(next, pageNum + 1, maxPages, site, st.files, net);
        WalkGathers(next, pageNum + 1, maxPages, site, st.files, net);
        UncoverAppend(st.games, rest.games);
        assert ([url] + rest.visited)[1..] == rest.visited;
      }
    }
  }

  /** A timeout or another exception on the `k`-th page visited ends the
      walk, and the walk gives exactly the games of the pages before it, in
      page order, covers aside. */
  lemma WalkErrorKeepsEarlier(url: string, pageNum: nat, maxPages: int, site: Site, files: set<string>, net: Net,
                              k: nat)
    requires var v := Walk(url, pageNum, maxPages, site, files, net).visited;
      k < |v| && !site.visit(v[k]).Loaded?
    ensures var r := Walk(url, pageNum, maxPages, site, files, net);
      k == |r.visited| - 1 && UncoverAll(r.games) == Gather(site, r.visited[..k])
  {
    var v := Walk(url, pageNum, maxPages, site, files, net).visited;
    WalkChained(url, pageNum, maxPages, site, files, net);
    if k < |v| - 1 {
      ChainAt(site, v, k);
      assert false;
    }
    WalkGathers(url, pageNum, maxPages, site, files, net);
    GatherDropLast(site, v);
  }

  /** A last page that gives nothing adds nothing to the games gathered. */
  lemma GatherDropLast(site: Site, v: seq<string>)
    requires v != [] && Yield(site, v[|v| - 1]) == []
    ensures Gather(site, v) == Gather(site, v[..|v| - 1])
  {
    var k := |v| - 1;
    assert v == v[..k] + [v[k]];
    GatherAppend(site, v[..k], [v[k]]);
    assert Gather(site, [v[k]]) == Yield(site, v[k]) + Gather(site, []);
  }

  // ----- the thread scrape ------------------------------------------------

  /** What visiting a thread page gives: the metadata `extract_all_metadata`
      reads from the page (`Page.ExtractMetadata`) and the page's breadcrumb
      trail, or `None` when the visit raises. */
  type ThreadVisit = Option<(Metadata, Option<Trail>)>

  /** The visit of a page that loaded. */
  function Visited(url: string, page: ThreadPage, trail: Option<Trail>): (v: ThreadVisit)
    ensures v.Some? && v.value.0 == ExtractMetadata(page, url) && v.value.1 == trail
  {
    Some((ExtractMetadata(page, url), trail))
  }

  /** The metadata of a thread page with its category and forum id. */
  function DetailsRecord(m: Metadata, trail: Option<Trail>): (r: Record)
    ensures KHeaderImage !in r
    ensures Get(r, KCategory) == VStr(GetCategory(ParseBreadcrumbs(trail)))
    ensures Get(r, KForumId) == OptStr(GetForumId(trail))
    ensures forall k :: k in MetadataRecord(m) ==> Get(r, k) == MetadataRecord(m)[k]
  {
    assert KHeaderImage !in MetadataKeys && KCategory !in MetadataKeys && KForumId !in MetadataKeys;
    MetadataRecord(m)[KCategory := VStr(GetCategory(ParseBreadcrumbs(trail)))][KForumId := OptStr(GetForumId(trail))]
  }

  /** An attempt succeeds: the page loads and downloading its first image,
      when it has one, does not raise. */
  predicate Succeeds(visit: ThreadVisit) {
    visit.Some? && (visit.value.0.images != [] ==> !Unjoinable(visit.value.0.images[0]))
  }

  /** One attempt of `scrape_game_details`: the details, with the first
      image downloaded as the header image when there is one. */
  function Attempt(url: string, visit: ThreadVisit, files: set<string>, net: Net)
    : (r: Result<(Record, set<string>), string>)
    ensures r.Ok? <==> Succeeds(visit)
    ensures r.Ok? ==> files <= r.value.1
  {
    match visit
    case None => Err("visit failed")
    case Some((m, trail)) =>
      var d := DetailsRecord(m, trail);
      if m.images == [] then Ok((d, files))
      else
        match DownloadImage(m.images[0], url, HeadersDir, files, net)
        case Err(e) => Err(e)
        case Ok(dl) => Ok((d[KHeaderImage := VStr(dl.path)], dl.files))
  }

  /** A successful attempt gives the page's details; when the page has
      images, the header image too, which names a cache file or is "". */
  lemma AttemptGives(url: string, visit: ThreadVisit, files: set<string>, net: Net)
    requires Attempt(url, visit, files, net).Ok?
    ensures var r := Attempt(url, visit, files, net).value;
      var d := DetailsRecord(visit.value.0, visit.value.1);
      (visit.value.0.images == [] ==> r == (d, files))
      && (visit.value.0.images != [] ==>
            r.0 - {KHeaderImage} == d && KHeaderImage in r.0 && Local(r.0[KCoverImage := r.0[KHeaderImage]], r.1))
  {
    var m := visit.value.0;
    var d := DetailsRecord(m, visit.value.1);
    if m.images != [] {
      var dl := DownloadImage(m.images[0], url, HeadersDir, files, net).value;
      DropAfterSet(d, KHeaderImage, VStr(dl.path));
    }
  }

  /** What the retry loop gives: the details or `None`, the attempts made,
      the delays slept between them, and the cache files afterwards. */
  datatype Details = Details(result: Option<Record>, attempts: nat, delays: seq<nat>, files: set<string>)

  /** The attempts left from attempt number `attempt` (counted from 0). */
  function Left(attempt: nat, retries: int): nat {
    if attempt < retries then retries - attempt else 0
  }

  /** The outcome of each attempt by its number: the details and the cache
      files afterwards, or `Err` when it raised. */
  type Tries = nat -> Result<(Record, set<string>), string>

  /** The retry loop of `scrape_game_details` from attempt number `attempt`
      (counted from 0): the first attempt that succeeds ends it; after a
      failed attempt `i` other than the last the loop sleeps
      `RETRY_DELAY * (i + 1)`. */
  function Retry(attempt: nat, retries: int, tries: Tries, files: set<string>): (r: Details)
    ensures r.attempts <= Left(attempt, retries)
    ensures attempt < retries ==> r.attempts >= 1
    ensures |r.delays| == if r.attempts == 0 then 0 else r.attempts - 1
    ensures forall i :: 0 <= i < |r.delays| ==> r.delays[i] == RetryDelay * (attempt + i + 1)
    ensures forall i :: attempt <= i < attempt + r.attempts - 1 ==> tries(i).Err?
    ensures r.result.Some? <==> r.attempts > 0 && tries(attempt + r.attempts - 1).Ok?
    ensures r.result.None? ==> r.attempts == Left(attempt, retries) && r.files == files
    ensures r.result.Some? ==> tries(attempt + r.attempts - 1) == Ok((r.result.value, r.files))
    decreases Left(attempt, retries)
  {
    if attempt >= retries then Details(None, 0, [], files)
    else
      match tries(attempt)
      case Ok((m, files1)) => Details(Some(m), 1, [], files1)
      case Err(_) =>
        if attempt < retries - 1 then
          var rest := Retry(attempt + 1, retries, tries, files);
          Details(rest.result, rest.attempts + 1, [RetryDelay * (attempt + 1)] + rest.delays, rest.files)
        else Details(None, 1, [], files)
  }

  /** `scrape_game_details`: at most `retries` attempts, each from the cache
      as it was, since an attempt that raises saves nothing; the details of
      the first that succeeds, or `None` when every one fails. */
  function ScrapeGameDetails(url: string, retries: int, visits: nat -> ThreadVisit, files: set<string>, net: Net)
    : (r: Details)
    ensures r.attempts <= Left(0, retries)
    ensures forall i :: 0 <= i < |r.delays| ==> r.delays[i] == RetryDelay * (i + 1)
    ensures r.result.None? <==> forall i :: 0 <= i < retries ==> Attempt(url, visits(i), files, net).Err?
    ensures r.result.Some? ==> r.attempts > 0
    ensures r.result.Some? ==> Attempt(url, visits(r.attempts - 1), files, net) == Ok((r.result.value, r.files))
    ensures r.result.Some? ==> forall i :: 0 <= i < r.attempts - 1 ==> Attempt(url, visits(i), files, net).Err?
  {
    TriedOutcome(url, retries, visits, files, net);
    Retry(0, retries, Tried(url, visits, files, net), files)
  }

  /** Attempt `i` visits the thread for the `i`-th time, from the cache as it
      was. */
  function Tried(url: string, visits: nat -> ThreadVisit, files: set<string>, net: Net): Tries {
    (i: nat) => Attempt(url, visits(i), files, net)
  }

  lemma TriedOutcome(url: string, retries: int, visits: nat -> ThreadVisit, files: set<string>, net: Net)
    ensures var r := Retry(0, retries, Tried(url, visits, files, net), files);
      (r.result.None? <==> forall i :: 0 <= i < retries ==> Attempt(url, visits(i), files, net).Err?)
      && (r.result.Some? ==> forall i :: 0 <= i < r.attempts - 1 ==> Attempt(url, visits(i), files, net).Err?)
  {
    var tries := Tried(url, visits, files, net);
    RetryOutcome(retries, tries, files);
    forall i: nat ensures tries(i) == Attempt(url, visits(i), files, net) {
    }
  }

  /** The loop gives nothing exactly when every attempt fails, and a result
      only after every earlier attempt failed. */
  lemma RetryOutcome(retries: int, tries: Tries, files: set<string>)
    ensures var r := Retry(0, retries, tries, files);
      (r.result.None? <==> forall i :: 0 <= i < retries ==> tries(i).Err?)
      && (r.result.Some? ==> forall i :: 0 <= i < r.attempts - 1 ==> tries(i).Err?)
  {
    var r := Retry(0, retries, tries, files);
    if r.result.None? {
      forall i | 0 <= i < retries ensures tries(i).Err? {
        if i == r.attempts - 1 {
          assert tries(r.attempts - 1).Err?;
        }
      }
    } else {
      assert tries(r.attempts - 1).Ok?;
    }
  }

  // ----- the update check -------------------------------------------------

  /** The dictionary `check_for_updates` returns. */
  datatype UpdateCheck = UpdateCheck(hasUpdate: bool, oldVersion: string, newVersion: string, title: string,
                                     url: string)

  /** `check_for_updates`: the version of the page's title (its heading, or
      "" without one) against the last known version; an update needs both
      to be known and to differ. `None` when the visit raises. */
  function CheckForUpdates(gameUrl: string, lastKnown: string, visit: Option<Option<string>>)
    : (r: Option<UpdateCheck>)
    ensures r.None? <==> visit.None?
    ensures r.Some? ==> (r.value.title == visit.value.GetOr([]) && r.value.url == gameUrl
      && r.value.oldVersion == lastKnown && r.value.newVersion == ExtractVersion(r.value.title))
    ensures r.Some? ==> (r.value.hasUpdate <==> (r.value.newVersion != lastKnown
      && r.value.newVersion != Unknown && lastKnown != Unknown))
  {
    match visit
    case None => None
    case Some(heading) =>
      var title := heading.GetOr([]);
      var v := ExtractVersion(title);
      Some(UpdateCheck(v != lastKnown && v != Unknown && lastKnown != Unknown, lastKnown, v, title, gameUrl))
  }

  /** An update is reported only for a title one of the version patterns
      matches, and checking again against the version just found reports
      none. */
  lemma UpdateSettles(gameUrl: string, lastKnown: string, visit: Option<Option<string>>)
    requires CheckForUpdates(gameUrl, lastKnown, visit).Some?
    ensures var c := CheckForUpdates(gameUrl, lastKnown, visit).value;
      (c.hasUpdate ==> exists p :: p in Patterns && MatchesAnywhere(p, c.title))
      && !CheckForUpdates(gameUrl, c.newVersion, visit).value.hasUpdate
  {
    var c := CheckForUpdates(gameUrl, lastKnown, visit).value;
    if c.hasUpdate {
      assert ExtractVersion(c.title) != Unknown;
    }
  }
}
