# LewdCorner catalog scraper — a Dafny model of its core

The LewdCorner desktop client crawls the forum listings, bookmark pages and
thread pages of lewdcorner.com. It turns what it finds into rows of a local
SQLite catalog of games. This project models the core of that pipeline in
Dafny 4.11 and proves properties of the model:

- **Field extractors.** These cover version, developer, engine and status
  labels, download hosts, the thread id, images, download links, tags,
  description, changelog and breadcrumbs.
- **Listing parsers.** These build forum and bookmark records and apply the
  "enabled next link" rule.
- **Crawl loops.** These are the paginated forum walk, the retrying detail
  scrape, the image cache and the update check.
- **Catalog store.** The store holds games with their UNIQUE url and thread
  id, the full-text index its triggers maintain, tags and game-tag pairs,
  and the cascading tables. Its operations are insert, update, upsert,
  filter, delete, tags and notifications.
- **Game and Notification dictionary conversions.**
- **Session vault.** It holds a salt file and an encrypted cookie file.
- **Settings service.** It is a read-through cache with built-in defaults.
- **Notification service.**
- **Scraper worker.** Its sequential orchestration runs under a cooperative
  stop flag.

**What the model abstracts.** The browser, the HTML library, SQLite and
cryptography are not modelled. Instead:

- Pages are pre-selected node lists: labels, headings with the anchors that
  follow them, breadcrumb items and image sources.
- A page fetch is an abstract outcome: loaded, timeout or error.
- PBKDF2, Fernet, JSON, md5 and the network are function-valued parameters.
  Where a proof needs them to behave, it states that as a hypothesis, for
  example `Vault.Sound`.
- Clocks and random bytes are parameters.
- Qt signals become an event log.

**Files.** Each module has its own file, and the worked examples of two
extractors have a file next to theirs:

- `wrappers`, `values`, `lists`, `ordering`, `text`: shared definitions.
- `config`: the constants of `config.py`.
- `version`, `version_examples`, `capture`, `developer`,
  `developer_examples`, `extractor`, `tags`, `page`: `metadata_extractor.py`.
- `breadcrumbs`: `breadcrumb_parser.py`.
- `listing`: `forum_parser.py` and `bookmarks_parser.py`.
- `urls`: `urljoin` onto `BASE_URL`.
- `crawl`: `game_scraper.py`.
- `models`: `models.py`.
- `catalog`, `upsert_laws`, `removal`, `filters`, `notices`: `database.py` and
  `schema.py`.
- `base64`, `vault`: `session_manager.py`.
- `settings`: `settings_service.py`.
- `notify`: `notification_service.py`.
- `worker`: `scraper_worker.py`.

**Where the code departs from what its docstrings and names suggest, the
model follows the code:**

- `upsert_game` overwrites every non-None column of the existing row. It
  does not merge field by field, so a column the record leaves out is reset
  to its default.
- `upsert_game` does not reject a record that has neither a thread id nor a
  url. Such a record is inserted with url and thread_id both `''`, so a
  second such record fails on the UNIQUE url (`Catalog.InsertError`).
- `load_cookies` returns the same `None` for a missing file and for a wrong
  password.
- `mark_all_as_read` marks only the thousand newest unread notifications.

## Model

| member | source | states |
|---|---|---|
| Config.EngineOf | src/lewdcorner/config.py:47-62 | a class has an engine exactly when it is a key of the engine table, and the engine is that key's entry and never "Unknown" |
| Version.L1Correct | src/lewdcorner/core/scraper_engine/metadata_extractor.py:63 | the hand-written recogniser of the group `\d+[\d.]*[a-zA-Z0-9]*` accepts exactly the strings that group matches, with `\d` read as an ASCII digit |
| Version.L2Correct | src/lewdcorner/core/scraper_engine/metadata_extractor.py:64-66 | the recogniser of the dotted group `\d+\.[\d.]+[a-zA-Z0-9]*` accepts exactly the strings that group matches, with `\d` read as an ASCII digit |
| Version.MatchBracketV | src/lewdcorner/core/scraper_engine/metadata_extractor.py:63 | a match it reports spans `[v…]` with a valid group, and when it reports none the pattern does not match at that index |
| Version.MatchBracketDotted | src/lewdcorner/core/scraper_engine/metadata_extractor.py:64 | same two directions for `[digits.digits…]` |
| Version.MatchBareV | src/lewdcorner/core/scraper_engine/metadata_extractor.py:65 | same two directions for a bare `v1.2` that ends on a word boundary |
| Version.MatchVersionWord | src/lewdcorner/core/scraper_engine/metadata_extractor.py:66 | same two directions for `version 1.2` after whitespace, taking the longest group |
| Version.MatchBracketFinal | src/lewdcorner/core/scraper_engine/metadata_extractor.py:67 | same two directions for `[Final]`, `[Completed]` and `[Complete]`, ignoring case |
| Version.SearchFrom | src/lewdcorner/core/scraper_engine/metadata_extractor.py:71-73 | `re.search` finds the leftmost index where the pattern matches: nothing earlier matches, and `None` means no index matches |
| Version.FirstMatch | src/lewdcorner/core/scraper_engine/metadata_extractor.py:70-75 | with the patterns tried from a given one on, the answer is "Unknown" iff none matches anywhere; otherwise it is the group of the first pattern that matches |
| Version.ExtractVersion | src/lewdcorner/core/scraper_engine/metadata_extractor.py:59-75 | "Unknown" iff no pattern matches the title anywhere; otherwise the group of the first pattern, in priority order, at its leftmost match |
| VersionExamples.ExampleBracketedVersion | src/lewdcorner/core/scraper_engine/metadata_extractor.py:62-75 | "[DevCo] My Game [v1.4.2]" gives "1.4.2" |
| VersionExamples.ExampleFinal | src/lewdcorner/core/scraper_engine/metadata_extractor.py:62-75 | "My Game [Final]" gives "Final" |
| Capture.SearchLabel | src/lewdcorner/core/scraper_engine/metadata_extractor.py:92-101 | the developer label pattern's group at the leftmost index where it matches, and `None` only when it matches at no index |
| Capture.GroupHasNoNewline | src/lewdcorner/core/scraper_engine/metadata_extractor.py:93-97 | a captured label group never spans a line break |
| Developer.RemoveTagsLeavesNone | src/lewdcorner/core/scraper_engine/metadata_extractor.py:105 | after `re.sub(r'<[^>]+>', '')` no `<…>` tag is left in the text |
| Developer.RemoveBracketSuffix | src/lewdcorner/core/scraper_engine/metadata_extractor.py:108 | `re.sub(r'\s+\[.*?\]$', '', s)`: the text changes iff some whitespace run is followed by `[`, characters other than a newline and a `]` that ends the text (or precedes a final newline); the leftmost such match is cut out, and the rest is kept |
| Developer.DescriptionTier | src/lewdcorner/core/scraper_engine/metadata_extractor.py:90-110 | the labels are tried in order, and a label whose cleaned group has at most two characters moves on to the next label; the result is the first accepted candidate, and `None` iff the description is empty or every label is rejected |
| Developer.StructureTier | src/lewdcorner/core/scraper_engine/metadata_extractor.py:113-138 | the first definition list that accepts wins; otherwise the first bold label with a usable text wins; `None` iff neither gives a candidate |
| Developer.TailOkCorrect | src/lewdcorner/core/scraper_engine/metadata_extractor.py:145 | the hand-coded test of the text after the dash agrees exactly with the pattern `\s*-\s*.+` |
| Developer.DashCandidate | src/lewdcorner/core/scraper_engine/metadata_extractor.py:145-147 | a candidate exists iff the title splits at a dash as the pattern requires, and it is the stripped text before that dash |
| Developer.DashTier | src/lewdcorner/core/scraper_engine/metadata_extractor.py:145-152 | the dash candidate is accepted iff it passes every check: no '[', no version-like start, length 3–49, and less than half the title |
| Developer.BracketTier | src/lewdcorner/core/scraper_engine/metadata_extractor.py:155-168 | with two or more brackets, the first one unless it looks like a version, with no length check and no fallback; with exactly one, it is also rejected for a status word or a length outside 3..49 |
| Developer.ExtractDeveloper | src/lewdcorner/core/scraper_engine/metadata_extractor.py:78-170 | the four tiers in order: description, structure, dash, brackets; the first that yields wins, else "Unknown" |
| DeveloperExamples.ExampleBracketDeveloper | src/lewdcorner/core/scraper_engine/metadata_extractor.py:155-168 | "[DevCo] My Game [v1.4.2]" has no dash candidate and gives developer "DevCo" |
| DeveloperExamples.ExampleDashDeveloper | src/lewdcorner/core/scraper_engine/metadata_extractor.py:145-152 | "DevCo - My Game" gives "DevCo" by the dash tier |
| Extractor.ClassesEngine | src/lewdcorner/core/scraper_engine/metadata_extractor.py:25-31 | the engine of the first class, in list order, that the engine table knows; `None` iff no class is known |
| Extractor.EngineFromLabels | src/lewdcorner/core/scraper_engine/metadata_extractor.py:18-35 | "Unknown" iff no label has an engine class; otherwise the engine of the first label that has one |
| Extractor.StatusOfText | src/lewdcorner/core/scraper_engine/metadata_extractor.py:44-51 | an exact key of the status table wins; otherwise a key equal to the text ignoring case; `None` iff no key matches ignoring case |
| Extractor.StatusFromLabels | src/lewdcorner/core/scraper_engine/metadata_extractor.py:38-56 | "Unknown" iff no label text names a status; otherwise the status named by the first label that names one |
| Extractor.IdentifyHost | src/lewdcorner/core/scraper_engine/metadata_extractor.py:361-383 | `None` iff no table domain occurs in the lower-cased URL; otherwise the name of the first entry, in table order, whose domain occurs |
| Extractor.KnownHostNotDropbox | src/lewdcorner/core/scraper_engine/metadata_extractor.py:327-329 | a URL with one of the second pass's known domains always has a host, and that host is never Dropbox |
| Extractor.ExtractThreadId | src/lewdcorner/core/scraper_engine/metadata_extractor.py:386-392 | an id exists iff `/threads/` is followed by a segment with a dot and a digit; it is the non-empty digit run after the last such dot of the leftmost match |
| Extractor.ExtractImages | src/lewdcorner/core/scraper_engine/metadata_extractor.py:249-285 | at most ten URLs, with no duplicates; a non-empty og:image comes first; every other entry is non-empty and free of avatar/smiley/emoji/icon/rating; nothing that is not a source |
| Extractor.ImagesComplete | src/lewdcorner/core/scraper_engine/metadata_extractor.py:262-285 | when there are few enough distinct sources, every kept post image is returned |
| Extractor.LinkEntry | src/lewdcorner/core/scraper_engine/metadata_extractor.py:314-323 | a link gives an entry iff its host is known; the entry's label is the link text, or the host name when the text is empty |
| Extractor.SecondPass | src/lewdcorner/core/scraper_engine/metadata_extractor.py:325-345 | every link with a known domain gives an entry, and none of them is Dropbox |
| Extractor.ExtractDownloadLinks | src/lewdcorner/core/scraper_engine/metadata_extractor.py:288-358 | entries have distinct URLs, a known host that identifies the URL, and a non-empty label; every link with a known domain is represented |
| Extractor.FirstPassFirst | src/lewdcorner/core/scraper_engine/metadata_extractor.py:350-358 | the result is the de-duplicated first pass followed by the second-pass entries whose URLs the first pass lacks |
| Lists.Dedupe | src/lewdcorner/core/scraper_engine/metadata_extractor.py:350-358 | de-duplication by key keeps exactly the first occurrence of each key, in input order: the result is the input at the indices where a key first appears |
| Lists.DedupeAppend | src/lewdcorner/core/scraper_engine/metadata_extractor.py:350-358 | de-duplicating a concatenation de-duplicates the first part, then the second part against the first part's keys |
| Tags.ElementTags | src/lewdcorner/core/scraper_engine/metadata_extractor.py:222-226 | keeps exactly the tag texts that are non-empty and shorter than 30 characters |
| Tags.SplitRejoins | src/lewdcorner/core/scraper_engine/metadata_extractor.py:239-240 | splitting on separators loses nothing: the pieces and separators rebuild the text |
| Tags.ExtractTags | src/lewdcorner/core/scraper_engine/metadata_extractor.py:243-246 | `list(set(tags))[:20]` gives at most 20 distinct tags, each a candidate, and all of them when there are at most 20 |
| Page.ExtractDescription | src/lewdcorner/core/scraper_engine/metadata_extractor.py:173-188 | empty without a post body; the body itself up to 5000 characters; otherwise its first 5000 characters followed by "..." |
| Page.JoinSplits | src/lewdcorner/core/scraper_engine/metadata_extractor.py:204-207 | joining lines that hold no newline and splitting them again gives the lines back |
| Page.ExtractChangelog | src/lewdcorner/core/scraper_engine/metadata_extractor.py:191-212 | empty iff no heading gives a changelog; otherwise the first such heading's joined section, cut to 3000 characters |
| Page.ExtractMetadata | src/lewdcorner/core/scraper_engine/metadata_extractor.py:395-423 | each field comes from its extractor; the list bounds hold (20 tags, 10 images, 3000 characters of changelog), and download URLs are distinct |
| Breadcrumbs.TextsWhenAllNamed | src/lewdcorner/core/scraper_engine/breadcrumb_parser.py:31-45 | when every item has a text, the trail has one text per item, in item order |
| Breadcrumbs.GetCategory | src/lewdcorner/core/scraper_engine/breadcrumb_parser.py:55-68 | "Unknown" for an empty trail, the only entry of a one-item trail, else the second-to-last entry |
| Breadcrumbs.CategoryOfThread | src/lewdcorner/core/scraper_engine/breadcrumb_parser.py:59-68 | appending the thread's own item makes the trail's former last entry the category |
| Breadcrumbs.ForumIdFrom | src/lewdcorner/core/scraper_engine/breadcrumb_parser.py:79-95 | an id exists iff some forum link's part contains a dot; it is the piece between the first and second dots of the first such link, and holds no dot |
| Breadcrumbs.IsAllowedForum | src/lewdcorner/core/scraper_engine/breadcrumb_parser.py:98-104 | plain membership, defaulting to ['6', '119', '110'] |
| Breadcrumbs.ForumLinkId | src/lewdcorner/core/scraper_engine/breadcrumb_parser.py:79-95 | a forum link of the shape `/forums/<name>.<id>/`, with no dot or slash in the name or the id, yields exactly that id |
| Urls.CleanClean | src/lewdcorner/core/scraper_engine/game_scraper.py:70 | the cleaning `urlsplit` does first (leading C0 controls and spaces stripped, tab, CR and LF removed) is idempotent |
| Urls.Parse | src/lewdcorner/core/scraper_engine/game_scraper.py:70 | `urlparse` fails iff the network location has one kind of bracket only; the scheme is the lower-cased prefix before the first `:` when that is a scheme; the pieces stop where `urlsplit` cuts them |
| Urls.SplitParams | src/lewdcorner/core/scraper_engine/game_scraper.py:70 | `_splitparams`: the parameters are what follows the first `;` after the last `/`, and the path and parameters rebuild the text |
| Urls.JoinSplit | src/lewdcorner/core/scraper_engine/game_scraper.py:70 | `'/'.join(path.split('/'))` gives the path back |
| Urls.SplitJoin | src/lewdcorner/core/scraper_engine/game_scraper.py:70 | splitting a join of slash-free segments gives the segments back |
| Urls.ResolvedHasNoDots | src/lewdcorner/core/scraper_engine/game_scraper.py:70 | after resolution no `.` or `..` segment is left in the path |
| Urls.PlainPathResolves | src/lewdcorner/core/scraper_engine/game_scraper.py:70 | an absolute path without dot segments is joined unchanged |
| Urls.PlainRelativeResolves | src/lewdcorner/core/scraper_engine/game_scraper.py:70 | a relative path without dot segments or empty inner segments is joined behind a single `/` |
| Urls.ParamsRejoin | src/lewdcorner/core/scraper_engine/game_scraper.py:70 | a path whose parameters `urlunparse` wrote out is split back into the same path and parameters |
| Urls.RejoinUnparse | src/lewdcorner/core/scraper_engine/game_scraper.py:70 | parts that a join writes out, joined onto the base again, give the same URL |
| Urls.JoinIsAbsolute | src/lewdcorner/core/scraper_engine/game_scraper.py:70 | every join that does not raise gives a URL with a scheme |
| Urls.JoinIdempotent | src/lewdcorner/core/scraper_engine/game_scraper.py:64-70 | joining a URL that a join returned gives the same URL again |
| Urls.MakeAbsolute | src/lewdcorner/core/scraper_engine/game_scraper.py:64-70 | "" stays "", http:// and https:// URLs are kept, and anything else is `urljoin(BASE_URL, url)` |
| Urls.MakeAbsoluteIdempotent | src/lewdcorner/core/scraper_engine/game_scraper.py:64-70 | making an absolute URL absolute again changes nothing |
| Urls.JoinIfRelative | src/lewdcorner/core/scraper_engine/forum_parser.py:71-72 | the listing rule: a non-empty link that does not start with http is joined; whatever a join changes comes out absolute |
| Listing.ListingEngineAgrees | src/lewdcorner/core/scraper_engine/forum_parser.py:87-97 | the listings' first-matching-class rule gives the same engine as the thread page's rule |
| Listing.FirstStatus | src/lewdcorner/core/scraper_engine/forum_parser.py:100-105 | the first label text exactly equal to a keyword, case-sensitive, else "Unknown" |
| Listing.ParseCommon | src/lewdcorner/core/scraper_engine/forum_parser.py:57-140 | an item is skipped iff it has no title link or no usable URL; otherwise title, url, thread id, version, engine and status come from their extractors |
| Listing.ForumRecord | src/lewdcorner/core/scraper_engine/forum_parser.py:125-138 | a forum record carries the page's category and forum id, developer '', and is not flagged as bookmarked |
| Listing.BookmarkRecord | src/lewdcorner/core/scraper_engine/bookmarks_parser.py:120-146 | a bookmark record has is_bookmarked = True, developer '', the snippet as description, and no category or forum id |
| Listing.ParseForumPage | src/lewdcorner/core/scraper_engine/forum_parser.py:24-55 | a page of a disallowed forum yields []; every record carries the page's category and forum id; every item that parses is represented |
| Listing.ForumRecordsInOrder | src/lewdcorner/core/scraper_engine/forum_parser.py:47-53 | records come in item order: two runs of items give the first run's records, then the second's |
| Listing.BookmarkContainers | src/lewdcorner/core/scraper_engine/bookmarks_parser.py:37-43 | bookmark rows, else any content rows, else struct items |
| Listing.ParseBookmarksPage | src/lewdcorner/core/scraper_engine/bookmarks_parser.py:21-57 | every record is flagged as bookmarked, and every item that parses is represented |
| Listing.HasNextPage | src/lewdcorner/core/scraper_engine/forum_parser.py:142-155 | true iff a next link exists and its classes lack 'is-disabled' |
| Listing.NextPageUrl | src/lewdcorner/core/scraper_engine/forum_parser.py:157-174 | `None` when there is no enabled next link or its href is empty; an http href is kept; anything else goes through `urljoin(BASE_URL, href)` and comes out absolute |
| Crawl.DownloadImage | src/lewdcorner/core/scraper_engine/game_scraper.py:72-125 | "" for an empty URL; a cached file is returned with no request; otherwise the saved path iff the response is an image; the cache grows by exactly the returned path |
| Crawl.DownloadAgain | src/lewdcorner/core/scraper_engine/game_scraper.py:90-97 | once downloaded, the same URL and context give the same path from the cache, with no request, whatever the network does |
| Crawl.DownloadPathFixed | src/lewdcorner/core/scraper_engine/game_scraper.py:90-92 | two successful downloads of the same URL and context give the same path |
| Crawl.Localise | src/lewdcorner/core/scraper_engine/game_scraper.py:166-173 | the thumbnail loop changes only covers: each non-empty cover becomes local, everything else is kept |
| Crawl.ScanForum | src/lewdcorner/core/scraper_engine/game_scraper.py:127-198 | at most max_pages pages are visited, starting at the forum URL; none for an empty URL or a budget below one |
| Crawl.WalkChained | src/lewdcorner/core/scraper_engine/game_scraper.py:177-187 | each visited page's enabled next link leads to the next page visited |
| Crawl.WalkStops | src/lewdcorner/core/scraper_engine/game_scraper.py:146-195 | the walk stops only at a page with no usable next URL (none, empty or the same page), at a failed page, or when the budget is spent |
| Crawl.WalkGathers | src/lewdcorner/core/scraper_engine/game_scraper.py:146-198 | the games returned are those of the visited pages, in page order, with only their covers changed |
| Crawl.WalkErrorKeepsEarlier | src/lewdcorner/core/scraper_engine/game_scraper.py:175-198 | a timeout or error on the k-th page ends the walk and returns exactly the games of the pages before it |
| Crawl.Retry | src/lewdcorner/core/scraper_engine/game_scraper.py:213-257 | the first successful attempt ends the loop; the delay after failed attempt i is RETRY_DELAY·(i+1), with none after the last attempt |
| Crawl.ScrapeGameDetails | src/lewdcorner/core/scraper_engine/game_scraper.py:200-259 | at most `retries` attempts; `None` iff every attempt fails; otherwise the first success, after only failures |
| Crawl.CheckForUpdates | src/lewdcorner/core/scraper_engine/game_scraper.py:402-437 | has_update iff the new version differs from the old and neither is "Unknown"; `None` iff the visit raises |
| Crawl.UpdateSettles | src/lewdcorner/core/scraper_engine/game_scraper.py:421-425 | an update needs a title that one of the version patterns matches, and checking again against the version found reports none |
| Models.ReadEntry | src/lewdcorner/core/db/models.py:71-82 | an integer flag becomes a bool; a date text is parsed, or becomes None when it does not parse; anything else is kept |
| Models.FromDict | src/lewdcorner/core/db/models.py:69-84 | every field comes from the dictionary, read as above, or else from its declared default; other keys are dropped |
| Models.FromDictDropsExtracted | src/lewdcorner/core/db/models.py:84 | the extracted images and download_links are never kept |
| Models.ToDict | src/lewdcorner/core/db/models.py:59-66 | the four flags are written as 1/0, and every other field unchanged |
| Models.RoundTrip | src/lewdcorner/core/db/models.py:59-84 | from_dict(to_dict(g)) == g for every well-typed game |
| Models.DefaultGame | src/lewdcorner/core/db/models.py:12-57 | the defaults: status and engine "Unknown", completed_status "Not Started", flags False |
| Models.Converted | src/lewdcorner/core/db/models.py:69-84 | `from_dict` converts the caller's dictionary in place: same keys, flags and dates read, every other value kept |
| Models.ConvertedSettled | src/lewdcorner/core/db/models.py:69-84 | converting twice is converting once, the converted dictionary gives the same game, and each game field holds the game's value |
| Models.NotificationRoundTrip | src/lewdcorner/core/db/models.py:155-164 | a notification round-trips, is_read passing through 1/0 |
| Catalog.AddTag | src/lewdcorner/core/db/database.py:299-309 | returns the named tag's id and creates it, with a fresh id, only when it is missing |
| Catalog.AddTagsToGameTags | src/lewdcorner/core/db/database.py:316-328 | the game gains exactly the stripped, non-blank names, and every other game's tags are unchanged |
| Catalog.AddTagsToGameIds | src/lewdcorner/core/db/database.py:316-328 | new tags get ids not used before, so tag ids stay distinct |
| Catalog.SetGameTagsReplaces | src/lewdcorner/core/db/database.py:340-345 | afterwards the game has exactly the given names: it replaces and does not merge |
| Catalog.Written | src/lewdcorner/core/db/database.py:112-119 | the columns written for a game are exactly its non-None column values of to_dict |
| Catalog.AddGame | src/lewdcorner/core/db/database.py:110-135 | the row takes the next id and the insert trigger indexes it; a NULL title or a duplicate url or thread id fails and changes nothing |
| Catalog.AddGameValid | src/lewdcorner/core/db/database.py:110-135 | a successful insert keeps the catalog consistent (UNIQUE keys, index equal to the rows, references) and the game has exactly the tags given |
| Catalog.UpdateGame | src/lewdcorner/core/db/database.py:137-162 | raises without an id; otherwise it replaces every written column, re-indexes the row and changes nothing else; an id with no row fails on the tag link |
| Catalog.FirstTag | src/lewdcorner/core/db/database.py:316-323 | the first tag name that is not blank after stripping, if any |
| Catalog.UpdateLeaves | src/lewdcorner/core/db/database.py:137-162 | a failed update leaves the catalog as it was, except that an update of an id with no row still commits the first new tag, as `add_tag` commits before the foreign-key error |
| Catalog.UpdateGameValid | src/lewdcorner/core/db/database.py:137-162 | a successful update keeps the catalog consistent and adds no row; a non-empty tag list becomes the game's exact tags |
| Catalog.Lookup | src/lewdcorner/core/db/database.py:167-176 | a truthy thread_id looks up by thread_id only; else a truthy url looks up by url; else there is no lookup |
| Catalog.Upsert | src/lewdcorner/core/db/database.py:164-189 | a resolved row is updated and its id returned; an unresolved record is inserted exactly as add_game would insert it |
| UpsertLaws.UpsertValid | src/lewdcorner/core/db/database.py:164-189 | a successful upsert keeps the catalog consistent and returns the id of an existing row |
| UpsertLaws.UpsertWrites | src/lewdcorner/core/db/database.py:177-189 | afterwards the returned row holds every value written for the record |
| UpsertLaws.UpsertResetsOmitted | src/lewdcorner/core/db/database.py:139-155 | a column the record leaves out is reset to its declared default: a replace, not a merge |
| UpsertLaws.UpsertMatches | src/lewdcorner/core/db/database.py:170-183 | a record whose resolving value a row holds updates that row and adds no row |
| UpsertLaws.UpsertInserts | src/lewdcorner/core/db/database.py:170-189 | a record that resolves to nothing is inserted under the next id |
| UpsertLaws.UpsertUrlNotConsulted | src/lewdcorner/core/db/database.py:170-176 | with a truthy thread id the url is ignored: a new thread id whose url another row has fails on the UNIQUE url |
| UpsertLaws.UpsertIdempotent | src/lewdcorner/core/db/database.py:164-189 | repeating an upsert with a truthy thread id or url succeeds, returns the same id and adds no row |
| Removal.DeleteRemovesRow | src/lewdcorner/core/db/database.py:269-273 | exactly the row and its index entry go; every other row and entry is kept |
| Removal.DeleteCascades | src/lewdcorner/core/db/schema.py:75-141 | the game's tag, label, collection and notification rows go, and every other row of those tables stays |
| Removal.DeleteValid | src/lewdcorner/core/db/schema.py:255-272 | deleting keeps the catalog consistent: the index still equals the rows, and no foreign key dangles |
| Filters.FilteredIds | src/lewdcorner/core/db/database.py:241-267 | each matching row is returned exactly once and nothing else is, in ascending title order |
| Filters.FilterGamesHonoured | src/lewdcorner/core/db/database.py:241-267 | every returned game, read back through from_dict, honours every supplied filter: favourite, completed status, engine, status and hidden |
| Ordering.SortBy | src/lewdcorner/core/db/database.py:265 | `ORDER BY`: the same elements, as a permutation, in ascending key order |
| Ordering.BelowTotal | src/lewdcorner/core/db/database.py:265 | the text order compares any two texts |
| Notices.AddNotification | src/lewdcorner/core/db/database.py:456-466 | the row takes the next id, which is returned; a NULL type or title, or a game that does not exist, fails and changes nothing |
| Notices.AddNotificationValid | src/lewdcorner/core/db/database.py:456-466 | a successful insert keeps the store consistent and adds exactly one unread row |
| Notices.UnreadCount | src/lewdcorner/core/db/database.py:487-490 | the number of rows with is_read = 0 |
| Notices.GetUnread | src/lewdcorner/core/db/database.py:468-477 | the page's rows read back through Notification.from_dict, with their ids |
| Notices.UnreadPageNewest | src/lewdcorner/core/db/database.py:468-477 | a page holds each unread row at most once, and the rows it leaves out are no newer than any it returns |
| Notices.GetUnreadAreUnread | src/lewdcorner/core/db/database.py:468-477 | every notification read back from a page is unread |
| Notices.MarkReadEffect | src/lewdcorner/core/db/database.py:479-485 | marking takes exactly that row out of the unread rows and lowers the count by one when it was unread |
| Notify.CreateNotification | src/lewdcorner/core/notifications/notification_service.py:20-38 | the new row holds exactly the given type, title, message, game and priority and is unread; other rows are untouched; it fails only for a game that does not exist |
| Notify.NotifyGameUpdate | src/lewdcorner/core/notifications/notification_service.py:40-48 | type "game_update", title "Update Available: <title>", message "Version <old> → <new>", priority 1 |
| Notify.NotifyNewGame | src/lewdcorner/core/notifications/notification_service.py:50-56 | type "new_game", an empty message, priority 0 |
| Notify.NotifyDownloadComplete | src/lewdcorner/core/notifications/notification_service.py:58-65 | type "download_complete", an empty message, priority 1 |
| Notify.MarkAllAsReadEffect | src/lewdcorner/core/notifications/notification_service.py:75-80 | only the 1000 newest unread are marked; with at most 1000 none remain, otherwise exactly the surplus, none newer than any marked |
| Vault.SaltOf | src/lewdcorner/core/auth/session_manager.py:28-34 | an existing salt is returned unchanged; a new one is written only when none exists |
| Vault.DeriveKey | src/lewdcorner/core/auth/session_manager.py:36-58 | a password that is already a Fernet key is used as it is; otherwise the key is base64url(PBKDF2(password, salt, 100000, 32)) |
| Vault.DeriveStable | src/lewdcorner/core/auth/session_manager.py:36-58 | once a salt exists, deriving changes no file and gives the same key every time |
| Base64.DecodeEncode | src/lewdcorner/core/auth/session_manager.py:58 | the urlsafe encoding decodes back to its bytes under the lenient decoder |
| Base64.TrailerIgnored | src/lewdcorner/core/auth/session_manager.py:42-45 | text after the closing pad of an encoding is ignored |
| Base64.JunkSkipped | src/lewdcorner/core/auth/session_manager.py:42-45 | a character outside both alphabets, other than the pad, is skipped |
| Base64.SameReading | src/lewdcorner/core/auth/session_manager.py:42-45 | texts that differ only in `-` for `+` and `_` for `/` decode alike |
| Base64.PadBitsIgnored | src/lewdcorner/core/auth/session_manager.py:42-45 | after whole groups, two different last groups of three characters and a pad, differing only in the two bits no byte uses, decode to the same bytes, so a 44-byte password is accepted as a key in more than one spelling |
| Vault.StandardSpelling | src/lewdcorner/core/auth/session_manager.py:42-45 | a key spelt with `+` or `/` is a key, and its urlsafe spelling decodes to the same bytes |
| Vault.PlusBeforePad | src/lewdcorner/core/auth/session_manager.py:42-45 | 43 characters ending in `+` followed by `=` (as 42 `A`s and `+=`) are accepted as a Fernet key |
| Vault.SaveCookies | src/lewdcorner/core/auth/session_manager.py:60-80 | true iff the key is accepted, the session file then holding the encrypted cookies; false leaves the session file unchanged |
| Vault.LoadCookies | src/lewdcorner/core/auth/session_manager.py:82-109 | `None` with no file (no key derived); otherwise the cookies iff the key is accepted and the token decrypts to JSON |
| Vault.SaveThenLoad | src/lewdcorner/core/auth/session_manager.py:60-109 | loading with the saving password gives back the cookies saved |
| Vault.WrongPasswordLoadsNothing | src/lewdcorner/core/auth/session_manager.py:104-109 | a password whose key has another signing half (the first 16 decoded bytes) loads `None`, the same as a missing file |
| Vault.SameKeyBytesLoads | src/lewdcorner/core/auth/session_manager.py:89-102 | a password whose key text differs but decodes to the same bytes loads the saved cookies: `Fernet(key)` keeps only the decoded bytes |
| Vault.DeleteThenLoad | src/lewdcorner/core/auth/session_manager.py:111-124 | after a delete nothing loads and no session exists; the surviving salt keeps the key |
| Vault.SaltWrittenOnce | src/lewdcorner/core/auth/session_manager.py:28-34 | save, load and delete never replace an existing salt |
| Vault.ValidateCookies | src/lewdcorner/core/auth/session_manager.py:126-136 | true iff the list is non-empty and every cookie has 'name' and 'value' |
| Settings.SettingRoundTrip | src/lewdcorner/core/db/database.py:527-546 | a stored `None`, boolean, number or list reads back as itself; text reads back as itself unless it parses as JSON; a date cannot be stored, since `json.dumps` raises |
| Settings.SetSetting | src/lewdcorner/core/db/database.py:537-546 | fails exactly when the value is not text and `json.dumps` raises; otherwise the key holds the stored text and every other key is unchanged |
| Settings.Read | src/lewdcorner/core/settings/settings_service.py:38-48 | a cached key gives the cached value, whatever the default and the store say; otherwise the stored value or the default, falling back to the built-in default for None, and the result is cached |
| Settings.Write | src/lewdcorner/core/settings/settings_service.py:50-54 | a `set` that raises changes neither table nor cache; one that succeeds stores the value and caches it, other cache entries unchanged |
| Settings.WriteThenRead | src/lewdcorner/core/settings/settings_service.py:50-54 | the next `get` after a `set` that succeeds returns exactly the value set |
| Settings.WriteDateRaises | src/lewdcorner/core/settings/settings_service.py:50-54 | setting a date raises and changes nothing |
| Settings.All | src/lewdcorner/core/settings/settings_service.py:56-64 | exactly the default keys, with a stored non-None value overriding the default |
| Settings.ResetReadsDefaults | src/lewdcorner/core/settings/settings_service.py:66-71 | a reset succeeds, and afterwards every key reads as its built-in default |
| Worker.SetScanType | src/lewdcorner/workers/scraper_worker/scraper_worker.py:39-43 | stores the type and max_pages; the game urls default to [] |
| Worker.Reported | src/lewdcorner/workers/scraper_worker/scraper_worker.py:86-89 | the record a save reports is the one `upsert_game` converted in place, with its id added |
| Worker.SaveOne | src/lewdcorner/workers/scraper_worker/scraper_worker.py:86-89 | a failed upsert logs nothing; a successful one logs the found event with the converted record and the new id |
| Worker.SaveLoop | src/lewdcorner/workers/scraper_worker/scraper_worker.py:82-92 | with the flag never set, exactly a plain loop of saves (failures skipped), each reporting the converted record; once set, nothing more is saved |
| Worker.ForumLoop | src/lewdcorner/workers/scraper_worker/scraper_worker.py:70-96 | a failing forum is reported and the next forum is still scanned; a set flag stops all saving |
| Worker.ScanBookmarks | src/lewdcorner/workers/scraper_worker/scraper_worker.py:101-134 | each game is marked as a bookmark before it is saved; a failing scrape saves nothing; completion is reported with the number saved |
| Worker.ScrapeDetails | src/lewdcorner/workers/scraper_worker/scraper_worker.py:136-156 | only non-None results are saved, and the finished count is len(game_urls) |
| Worker.RunJob | src/lewdcorner/workers/scraper_worker/scraper_worker.py:45-62 | dispatch on forums, bookmarks or details; any other type scans nothing; the games reported equal the count saved |
| Worker.FinishedCounts | src/lewdcorner/workers/scraper_worker/scraper_worker.py:90-156 | forums and bookmarks finish with the number of successful saves, details with the number of urls |
| Worker.UnstoppedSavesAll | src/lewdcorner/workers/scraper_worker/scraper_worker.py:64-156 | left to run, the worker saves exactly the scan's records in order, skipping only failures |
| Worker.BookmarksMarked | src/lewdcorner/workers/scraper_worker/scraper_worker.py:117-118 | every game a bookmark scan reports has is_bookmarked = True |
| Worker.CatalogStaysValid | src/lewdcorner/workers/scraper_worker/scraper_worker.py:86-88 | a run that is left to finish keeps a consistent catalog consistent |

## Left out

- **Browser and HTML.** Selenium navigation, waits and sleeps, and
  BeautifulSoup selectors are not modelled. Pages are inputs made of
  pre-selected node lists, and a fetch is an abstract outcome. Delays are
  recorded values only.
- **Cryptography, JSON and md5.** Fernet, PBKDF2 and JSON are
  function-valued parameters, and `Vault.Sound` states the round-trip they
  are assumed to satisfy. md5 and the HTTP client are parameters. Random
  salt and IV bytes are parameters.
- **Strict base64.** `Base64.Decode` follows CPython 3.12's non-strict
  `binascii.a2b_base64` after `urlsafe_b64decode`'s translation: both
  alphabets are read, other characters are skipped, a pad before the third
  character of a group is ignored, and text after the closing pad is
  ignored. The `validate` and strict modes of `binascii` are not modelled,
  since the program does not use them.
- **Vault failures and content.** `load_cookies` returning JSON that is not
  a list is not modelled. File-write failures in the vault and the image
  cache are not modelled.
- **SQLite internals.** Type affinity and `cursor.lastrowid` are not
  modelled. `add_tag`'s "already existed" branch, which depends on
  `lastrowid`, is idealised to return the existing id. In the program an
  `INSERT OR IGNORE` that inserts nothing leaves `lastrowid` at the
  connection's previous insert, so `add_tag` returns that stale non-zero
  id (for example the id `add_game` just inserted) instead of reaching its
  `SELECT`.
- **Floats and clocks.** Progress percentages, `get_stats`, ratings and
  play time arithmetic are not modelled. Clock readings are parameters.
- **Qt.** Signals become an event log. Threads, the UI, logging and
  `stop()` are left out. The stop flag is modelled as the number of flag
  reads after which it is seen set.
- **Catalog operations not modelled.** These are `get_game_tags` ordering,
  `search_games` and the FTS query language, and the label and collection
  operations beyond the delete cascade.
- **Tables not modelled.** The play_sessions, download_queue and
  analytics_events tables also cascade on delete; they are not part of
  this model.
- **Other crawl operations.** `scrape_bookmarks`' own pagination walk,
  `scrape_all_forums` and `like_thread` are left out. The worker takes the
  bookmark scan's result as an input.
- **Scripts and wrappers.** Scripts, `credential_manager.py`, `queries.py`,
  `main.py` and `launcher.py` are thin wrappers and are not part of this
  model.
- **Urls.JoinBase:** `urljoin` follows CPython 3.12 and is modelled only
  for joins onto `BASE_URL`. Two checks `urlsplit` makes on a network
  location are not modelled: that a bracketed host is a valid IPv6 or
  IPvFuture address (only the balance of the brackets is checked), and
  that a non-ASCII network location keeps no `/`, `?`, `#`, `@` or `:` under
  NFKC normalisation. Where either raises, the model returns a URL.
- **Unicode in regular expressions.** Python's `re` on text reads `\d` as
  any Unicode decimal digit and `\w` (hence `\b`) as any Unicode word
  character, and `IGNORECASE` and `str.lower()` fold non-ASCII letters. The
  model reads digits, word characters and case as ASCII. The lines below
  name each member this weakens, with an input on which it differs.
- **Version.MatchBracketV:** "[v１.０]" (fullwidth digits) matches in the
  program and gives "１.０"; the model finds no match.
- **Version.MatchBracketDotted:** "[１.０]" matches in the program and not
  in the model.
- **Version.MatchBareV:** in "ゲームv1.02" and "Game v1.0ä" the program
  sees no word boundary before `v` or after the version, because ム and ä
  are word characters, and finds nothing; the model finds "1.02" and "1.0".
- **Version.MatchVersionWord:** "VERSİON 1.0" and "version １.０" match in
  the program (`İ` folds to `i`, fullwidth digits are `\d`) and not in the
  model.
- **Version.MatchBracketFinal:** "[FİNAL]" matches in the program and
  gives "FİNAL"; the model finds no match.
- **Version.ExtractVersion:** it inherits each difference above: "[v１.０]"
  gives "１.０" in the program and "Unknown" in the model, and "ゲームv1.02"
  gives "Unknown" in the program and "1.02" in the model.
- **Version.L1Correct:** the group `\d+[\d.]*[a-zA-Z0-9]*` is proved equal to
  the recogniser with ASCII digits and letters; under `IGNORECASE` the
  program's `[a-zA-Z]` also takes the Kelvin sign, `ſ`, `İ` and `ı`.
- **Version.L2Correct:** the same holds for `\d+\.[\d.]+[a-zA-Z0-9]*`.
- **Developer.DashTier:** the `v?\d+\.` test reads ASCII digits, so for
  "１２.Studio - A Long Game Title" the program rejects "１２.Studio" as a
  version and the model accepts it.
- **Developer.BracketTier:** the `v?\d+[\d.]*` test reads ASCII digits, so
  "Game [１.０]" gives "１.０" in the model, where the program rejects it as
  a version. Its `.lower()` test does agree: no non-ASCII letter
  lower-cases to a letter of the status words.
- **Extractor.IdentifyHost:** `url.lower()` turns the Kelvin sign into `k`,
  so the program gives KrakenFiles for "\u212Arakenfiles.com/x"; the model
  lower-cases ASCII only and gives `None`.
- **Extractor.ExtractThreadId:** `(\d+)` takes any decimal digits, so
  "/threads/game.１２/" gives "１２" in the program and `None` in the model.
- **Capture.SearchLabel:** under `IGNORECASE` the `s` of `Tags?:` also
  matches `ſ`, so in "Tagſ: a" the program finds the label and captures "a";
  the model finds no match.
- **Tags.ExtractTags:** it inherits that difference: a description
  "Tagſ: a" gives ["a"] in the program and [] in the model ("Genreſ: a"
  likewise).
- **Extractor.ExtractImages:** `src.lower()` turns `İ` into `i` and a
  combining dot, so "x/emojİ.png" contains "emoji" in the program and is
  dropped; the model keeps it.
- **Extractor.SecondPass:** `url.lower()` turns the Kelvin sign into `k`,
  so "https://\u212Arakenfiles.com/x" is a known host in the program and
  gives a KrakenFiles entry; the model gives no entry.
- **Extractor.ExtractDownloadLinks:** a heading "LIN\u212AS" lowers to
  "links" in the program and opens a download section; in the model it does
  not. It also inherits the differences of `Extractor.SecondPass`.
- **Page.ExtractMetadata:** it inherits every difference above through its
  tags, images, download links and version.
- **Listing.ParseCommon:** it inherits the differences of
  `Version.ExtractVersion` and `Extractor.ExtractThreadId` through the
  record's version and thread id.
- **Worker.CatalogStaysValid:** the lemma is stated only for runs whose
  stop flag is never set. A stopped run saves a prefix, and that prefix
  keeps the catalog consistent by `Worker.SaveAllKeeps` as well.
- **Settings.Faithful:** the JSON hypothesis says what `json.dumps` does
  with `None`, booleans, numbers and lists of text, and that it raises
  on a date. What it does with any other object is left open, so
  `Settings.SetSetting` may succeed for a value the program rejects.
- **Tags.ExtractTags:** the order in which `list(set(...))` lists the tags
  is left open by Python. The model takes that order as an input, and
  `Page.PageTags` lists tags in order of first appearance.
- **Vault.WrongPasswordLoadsNothing:** Fernet's HMAC is keyed by the first
  16 bytes of the key only, so a key with the same signing half and a
  different encryption half passes the HMAC and then decrypts to other bytes
  or fails on the padding; what `json.loads` makes of such bytes is left
  open, and the lemma is stated only for keys with another signing half.
  `Vault.Sound` assumes that an HMAC cannot be forged without its key.
- **Crawl.DownloadImage:** making the URL absolute happens before the
  `try`, so a URL `urljoin` rejects raises. The model returns `Err` there,
  although the docstring of `download_image` promises a path or an empty
  string on failure.
