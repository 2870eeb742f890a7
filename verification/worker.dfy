/** The scraper worker: the background job that runs one kind of scan and
    saves what it finds, one record at a time, until it is done or asked to
    stop. Its Qt signals are an event log; the scraper's results and the
    store's `upsert_game` are parameters. */
module Worker {
  import opened Wrappers
  import opened Config
  import opened Values
  import Models
  import Catalog
  import UpsertLaws

  /** The signals the worker emits: progress messages (their percentages
      are left out), games saved, errors and the final count. */
  datatype Event =
    | Progress(message: string)
    | Found(game: Record)
    | Failure(message: string)
    | Finished(count: nat)

  /** What to scan: a scan type, the page limit and the thread urls of a
      details scan. */
  datatype Job = Job(scanType: string, maxPages: int, gameUrls: seq<string>)

  /** The job of a new worker. */
  const Initial: Job := Job("forums", 5, [])

  /** `set_scan_type`: missing or empty urls become the empty list. */
  function SetScanType(scanType: string, maxPages: int, gameUrls: Option<seq<string>>): (j: Job)
    ensures j.scanType == scanType && j.maxPages == maxPages
    ensures gameUrls.Some? ==> j.gameUrls == gameUrls.value
    ensures gameUrls.None? ==> j.gameUrls == []
  {
    Job(scanType, maxPages, gameUrls.GetOr([]))
  }

  /** When `stop()` is called: after this many reads of the flag, or never. */
  type StopAt = Option<nat>

  /** The read numbered `checks` finds the flag set; once set it stays set. */
  predicate Halted(checks: nat, stop: StopAt) {
    stop.Some? && checks >= stop.value
  }

  /** What the scraper returns: an error from initialising the browser, if
      any; then per call the records found or the message of the exception
      raised. */
  datatype Scraper = Scraper(
    initError: Option<string>,
    scanForum: (string, int) -> Result<seq<Record>, string>,
    scrapeBookmarks: int -> Result<seq<Record>, string>,
    scrapeDetails: string -> Result<Option<Record>, string>)

  /** `upsert_game` on a store of type `S`: `upsert` gives the new store and
      the row id, or `None` where it raises; `parseIso` is the
      `datetime.fromisoformat` with which its `Game.from_dict` converts the
      caller's dictionary in place before the write. */
  datatype Save<!S> = Save(upsert: (S, Record) -> Option<(S, nat)>, parseIso: string -> Option<DateTime>)

  /** The dictionary the worker reports after a successful save: the one it
      handed over, as `from_dict` left it, with the row id set. */
  function Reported<S>(save: Save<S>, game: Record, id: nat): (r: Record)
    ensures r.Keys == game.Keys + {KId} && r[KId] == VInt(id)
    ensures forall k :: k in game && k != KId ==> r[k] == Models.ReadEntry(k, game[k], save.parseIso)
  {
    Models.Converted(game, save.parseIso)[KId := VInt(id)]
  }

  /** The worker's progress: the store, the events so far, how often the
      stop flag was read and how many games were saved. */
  datatype Tally<S> = Tally(store: S, log: seq<Event>, checks: nat, saved: nat)

  /** The decimal digits of a number. */
  function NatStr(n: nat): (r: string)
    ensures |r| > 0
    decreases n
  {
    var d := ['0', '1', '2', '3', '4', '5', '6', '7', '8', '9'][n % 10];
    if n < 10 then [d] else NatStr(n / 10) + [d]
  }

  /** `s.split(c)`: the pieces between the occurrences of `c`. */
  function Split(s: string, c: char): (r: seq<string>)
    ensures |r| >= 1
    ensures |r| >= 2 <==> c in s
    decreases |s|
  {
    if s == [] then [[]]
    else
      var rest := Split(s[1..], c);
      if s[0] == c then [[]] + rest else [[s[0]] + rest[0]] + rest[1..]
  }

  /** The name shown for a forum: the second-to-last piece of its url
      split at '/', or "Unknown" when it has no '/'. */
  function ForumName(url: string): string {
    if '/' in url then
      var pieces := Split(url, '/');
      pieces[|pieces| - 2]
    else Unknown
  }

  /** How many games a log reports as saved. */
  function FoundCount(log: seq<Event>): (n: nat)
    ensures n <= |log|
    decreases |log|
  {
    if log == [] then 0 else (if log[0].Found? then 1 else 0) + FoundCount(log[1..])
  }

  lemma {:induction false} FoundCountAppend(a: seq<Event>, b: seq<Event>)
    ensures FoundCount(a + b) == FoundCount(a) + FoundCount(b)
    decreases |a|
  {
    if a != [] {
      FoundCountAppend(a[1..], b);
      assert (a + b)[0] == a[0] && (a + b)[1..] == a[1..] + b;
      assert FoundCount(a + b) == (if a[0].Found? then 1 else 0) + FoundCount(a[1..] + b);
    } else {
      assert a + b == b;
    }
  }

  // ----- reference: every record saved in turn -----------------------------

  /** Saves the records in order, skipping those whose save raises. */
  function SaveAll<S>(save: Save<S>, s: S, games: seq<Record>): S
    decreases |games|
  {
    if games == [] then s
    else
      SaveAll(save, SaveStep(save, s, games[0]), games[1..])
  }

  lemma {:induction false} SaveAllAppend<S>(save: Save<S>, s: S, a: seq<Record>, b: seq<Record>)
    ensures SaveAll(save, s, a + b) == SaveAll(save, SaveAll(save, s, a), b)
    decreases |a|
  {
    if a != [] {
      var next := SaveStep(save, s, a[0]);
      assert (a + b)[0] == a[0] && (a + b)[1..] == a[1..] + b;
      assert SaveAll(save, s, a + b) == SaveAll(save, next, a[1..] + b);
      assert SaveAll(save, s, a) == SaveAll(save, next, a[1..]);
      SaveAllAppend(save, next, a[1..], b);
    } else {
      assert a + b == b;
    }
  }

  /** Each record with `is_bookmarked` set. */
  function Marked(games: seq<Record>): (r: seq<Record>)
    ensures |r| == |games|
    ensures forall i :: 0 <= i < |r| ==> r[i] == games[i][KIsBookmarked := VBool(true)]
    decreases |games|
  {
    if games == [] then [] else [games[0][KIsBookmarked := VBool(true)]] + Marked(games[1..])
  }

  /** The records of every forum whose scan succeeds, in forum order. */
  function Harvest(scanForum: (string, int) -> Result<seq<Record>, string>, forums: seq<string>, maxPages: int)
    : seq<Record>
    decreases |forums|
  {
    if forums == [] then []
    else ForumGames(scanForum, forums[0], maxPages) + Harvest(scanForum, forums[1..], maxPages)
  }

  // ----- the save loop -----------------------------------------------------

  /** How a list is saved: as forum records, or as bookmarks out of `total`
      (which sets `is_bookmarked` and reports each save). */
  datatype Mode = AsForum | AsBookmarks(total: nat)

  /** The record a mode hands to `upsert_game`. */
  function Prepared(mode: Mode, game: Record): Record {
    if mode.AsBookmarks? then game[KIsBookmarked := VBool(true)] else game
  }

  /** The events of one successful save, reporting `game`. */
  function SavedEvents(mode: Mode, game: Record, saved: nat): (r: seq<Event>)
    ensures FoundCount(r) == 1 && r[0] == Found(game)
  {
    if mode.AsBookmarks? then
      [Found(game), Progress("Saved " + NatStr(saved) + "/" + NatStr(mode.total) + " games")]
    else [Found(game)]
  }

  /** `r` continues `t`: the flag read no fewer times, the log extended,
      and every further save reported by exactly one event. */
  predicate Grows<S>(t: Tally<S>, r: Tally<S>) {
    r.checks >= t.checks && r.saved >= t.saved
    && |r.log| >= |t.log| && r.log[..|t.log|] == t.log
    && FoundCount(r.log) == FoundCount(t.log) + (r.saved - t.saved)
  }

  lemma GrowsTrans<S>(a: Tally<S>, b: Tally<S>, c: Tally<S>)
    requires Grows(a, b) && Grows(b, c)
    ensures Grows(a, c)
  {
    assert c.log[..|a.log|] == c.log[..|b.log|][..|a.log|];
  }

  /** Every game reported from position `from` of the log on is marked as
      a bookmark. */
  predicate MarkedFrom(log: seq<Event>, from: nat) {
    forall i :: from <= i < |log| && log[i].Found? ==> Get(log[i].game, KIsBookmarked) == VBool(true)
  }

  lemma MarkedTrans(a: seq<Event>, b: seq<Event>, c: seq<Event>)
    requires |a| <= |b| <= |c| && c[..|b|] == b
    requires MarkedFrom(b, |a|) && MarkedFrom(c, |b|)
    ensures MarkedFrom(c, |a|)
  {
    forall i | |a| <= i < |c| && c[i].Found? ensures Get(c[i].game, KIsBookmarked) == VBool(true) {
      if i < |b| {
        assert c[i] == b[i];
      }
    }
  }

  /** The store after one `upsert_game`, unchanged where it raises. */
  function SaveStep<S>(save: Save<S>, s: S, game: Record): S {
    match save.upsert(s, game) case None => s case Some(p) => p.0
  }

  /** One turn of the save loop once the flag was read clear: a successful
      save is reported with the record as `upsert_game` left it. */
  function SaveOne<S>(mode: Mode, game: Record, t: Tally<S>, save: Save<S>): (r: Tally<S>)
    ensures Grows(t, r) && r.checks == t.checks + 1 && r.saved <= t.saved + 1
    ensures r.store == SaveStep(save, t.store, Prepared(mode, game))
    ensures mode.AsBookmarks? ==> MarkedFrom(r.log, |t.log|)
    ensures var p := save.upsert(t.store, Prepared(mode, game));
      (p.None? ==> r.log == t.log)
      && (p.Some? ==> |r.log| > |t.log| && r.log[|t.log|] == Found(Reported(save, Prepared(mode, game), p.value.1)))
  {
    var g := Prepared(mode, game);
    match save.upsert(t.store, g)
    case None => t.(checks := t.checks + 1)
    case Some(p) =>
      SavedGrows(mode, game, t, p.0, Reported(save, g, p.1));
      Tally(p.0, t.log + SavedEvents(mode, Reported(save, g, p.1), t.saved + 1), t.checks + 1, t.saved + 1)
  }

  /** A successful save extends the log by its events and counts one more
      game; in a bookmark scan the game it reports is marked. */
  lemma SavedGrows<S>(mode: Mode, game: Record, t: Tally<S>, store: S, shown: Record)
    requires mode.AsBookmarks? ==> Get(shown, KIsBookmarked) == VBool(true)
    ensures var r := Tally(store, t.log + SavedEvents(mode, shown, t.saved + 1), t.checks + 1, t.saved + 1);
      Grows(t, r) && (mode.AsBookmarks? ==> MarkedFrom(r.log, |t.log|))
  {
    var events := SavedEvents(mode, shown, t.saved + 1);
    FoundCountAppend(t.log, events);
    var log := t.log + events;
    assert log[..|t.log|] == t.log;
    if mode.AsBookmarks? {
      forall i | |t.log| <= i < |log| && log[i].Found? ensures Get(log[i].game, KIsBookmarked) == VBool(true) {
        assert log[i] == events[i - |t.log|];
      }
    }
  }

  /** The inner loop of the forum and bookmark scans: before each record the
      stop flag is read and the loop ends if it is set; a save that raises is
      skipped; a save that succeeds is reported with the row id. */
  function SaveLoop<S>(games: seq<Record>, mode: Mode, t: Tally<S>, save: Save<S>, stop: StopAt): (r: Tally<S>)
    ensures Grows(t, r) && r.saved - t.saved <= |games|
    ensures Halted(t.checks, stop) ==> r.store == t.store && r.log == t.log && r.saved == t.saved
    ensures stop.None? ==> r.store == SaveAll(save, t.store, if mode.AsBookmarks? then Marked(games) else games)
    ensures mode.AsBookmarks? ==> MarkedFrom(r.log, |t.log|)
    decreases |games|
  {
    if games == [] then t
    else if Halted(t.checks, stop) then t.(checks := t.checks + 1)
    else
      var t1 := SaveOne(mode, games[0], t, save);
      var r := SaveLoop(games[1..], mode, t1, save, stop);
      GrowsTrans(t, t1, r);
      if mode.AsBookmarks? then
        MarkedTrans(t.log, t1.log, r.log);
        SaveLoopStep(games, mode);
        r
      else
        SaveLoopStep(games, mode);
        r
  }

  /** The list a mode saves loses its head with the records' head. */
  lemma SaveLoopStep(games: seq<Record>, mode: Mode)
    requires games != []
    ensures var all := if mode.AsBookmarks? then Marked(games) else games;
      all[0] == Prepared(mode, games[0]) && all[1..] == (if mode.AsBookmarks? then Marked(games[1..]) else games[1..])
  {
  }

  // ----- the three scans ---------------------------------------------------

  /** The records a forum's scan yields, none when it raises. */
  function ForumGames(scanForum: (string, int) -> Result<seq<Record>, string>, forum: string, maxPages: int)
    : seq<Record>
  {
    match scanForum(forum, maxPages) case Ok(games) => games case Err(_) => []
  }

  /** Appends events that report no game. */
  function Note<S>(t: Tally<S>, events: seq<Event>): (r: Tally<S>)
    requires forall i :: 0 <= i < |events| ==> !events[i].Found?
    ensures Grows(t, r) && r == t.(log := t.log + events)
  {
    NoteCount(t.log, events);
    var r := t.(log := t.log + events);
    assert r.log[..|t.log|] == t.log;
    r
  }

  lemma NoteCount(log: seq<Event>, events: seq<Event>)
    requires forall i :: 0 <= i < |events| ==> !events[i].Found?
    ensures FoundCount(log + events) == FoundCount(log)
  {
    FoundCountAppend(log, events);
    NoFound(events);
  }

  lemma {:induction false} NoFound(events: seq<Event>)
    requires forall i :: 0 <= i < |events| ==> !events[i].Found?
    ensures FoundCount(events) == 0
    decreases |events|
  {
    if events != [] {
      NoFound(events[1..]);
    }
  }

  /** One turn of `_scan_forums` once the flag was read clear: the forum is
      announced and scanned, and its records saved or its error reported. */
  function ScanOne<S>(forum: string, idx: nat, total: nat, maxPages: int, t: Tally<S>, scraper: Scraper,
                      save: Save<S>, stop: StopAt): (r: Tally<S>)
    ensures Grows(t, r) && r.checks > t.checks
    ensures stop.None? ==> r.store == SaveAll(save, t.store, ForumGames(scraper.scanForum, forum, maxPages))
  {
    var announce := Progress("Scanning forum " + NatStr(idx + 1) + "/" + NatStr(total) + ": " + ForumName(forum));
    var t1 := Note(t.(checks := t.checks + 1), [announce]);
    match scraper.scanForum(forum, maxPages)
    case Ok(games) =>
      var r := SaveLoop(games, AsForum, t1, save, stop);
      GrowsTrans(t, t1, r);
      r
    case Err(e) =>
      var r := Note(t1, [Failure("Error scanning forum: " + e)]);
      GrowsTrans(t, t1, r);
      r
  }

  /** The forum loop of `_scan_forums`: before each forum the stop flag is
      read; a scan that raises is reported and the next forum is scanned. */
  function ForumLoop<S>(forums: seq<string>, idx: nat, total: nat, maxPages: int, t: Tally<S>, scraper: Scraper,
                        save: Save<S>, stop: StopAt): (r: Tally<S>)
    ensures Grows(t, r)
    ensures Halted(t.checks, stop) ==> r.store == t.store && r.log == t.log && r.saved == t.saved
    ensures stop.None? ==> r.store == SaveAll(save, t.store, Harvest(scraper.scanForum, forums, maxPages))
    decreases |forums|
  {
    if forums == [] then t
    else if Halted(t.checks, stop) then t.(checks := t.checks + 1)
    else
      var t1 := ScanOne(forums[0], idx, total, maxPages, t, scraper, save, stop);
      var r := ForumLoop(forums[1..], idx + 1, total, maxPages, t1, scraper, save, stop);
      GrowsTrans(t, t1, r);
      if stop.None? then
        SaveAllAppend(save, t.store, ForumGames(scraper.scanForum, forums[0], maxPages),
                      Harvest(scraper.scanForum, forums[1..], maxPages));
        r
      else r
  }

  /** `_scan_forums`: every allowed forum in turn, then completion and the
      number of games saved. */
  function ScanForums<S>(maxPages: int, t: Tally<S>, scraper: Scraper, save: Save<S>, stop: StopAt): (r: Tally<S>)
    ensures Grows(t, r) && |r.log| >= |t.log| + 2
    ensures r.log[|r.log| - 1] == Finished(r.saved) && r.log[|r.log| - 2] == Progress("Scan complete!")
    ensures Halted(t.checks, stop) ==> r.store == t.store && r.saved == t.saved
    ensures stop.None? ==> r.store == SaveAll(save, t.store, Harvest(scraper.scanForum, AllowedForumUrls, maxPages))
  {
    var t1 := ForumLoop(AllowedForumUrls, 0, |AllowedForumUrls|, maxPages, t, scraper, save, stop);
    var r := Note(t1, [Progress("Scan complete!"), Finished(t1.saved)]);
    GrowsTrans(t, t1, r);
    r
  }

  /** `_scan_bookmarks`: the bookmarked games, each marked as a bookmark and
      saved, then completion and the number saved; a failing scrape is
      reported and nothing is saved. */
  function ScanBookmarks<S>(maxPages: int, t: Tally<S>, scraper: Scraper, save: Save<S>, stop: StopAt)
    : (r: Tally<S>)
    ensures Grows(t, r) && |r.log| >= |t.log| + 2
    ensures r.log[|t.log|] == Progress("Scanning bookmarks...")
    ensures scraper.scrapeBookmarks(maxPages).Err? ==>
      r == t.(log := t.log + [Progress("Scanning bookmarks..."),
                             Failure("Bookmark scan error: " + scraper.scrapeBookmarks(maxPages).error)])
    ensures scraper.scrapeBookmarks(maxPages).Ok? ==>
      r.log[|r.log| - 1] == Finished(r.saved) && r.log[|r.log| - 2] == Progress("Bookmark scan complete!")
      && r.saved - t.saved <= |scraper.scrapeBookmarks(maxPages).value|
    ensures MarkedFrom(r.log, |t.log|)
    ensures Halted(t.checks, stop) ==> r.store == t.store && r.saved == t.saved
    ensures stop.None? && scraper.scrapeBookmarks(maxPages).Ok? ==>
      r.store == SaveAll(save, t.store, Marked(scraper.scrapeBookmarks(maxPages).value))
  {
    var t1 := Note(t, [Progress("Scanning bookmarks...")]);
    match scraper.scrapeBookmarks(maxPages)
    case Err(e) =>
      var r := Note(t1, [Failure("Bookmark scan error: " + e)]);
      GrowsTrans(t, t1, r);
      r
    case Ok(games) =>
      var t2 := Note(t1, [Progress("Found " + NatStr(|games|) + " bookmarked games")]);
      var t3 := SaveLoop(games, AsBookmarks(|games|), t2, save, stop);
      var r := Note(t3, [Progress("Bookmark scan complete!"), Finished(t3.saved)]);
      GrowsTrans(t, t1, t2);
      GrowsTrans(t, t2, t3);
      GrowsTrans(t, t3, r);
      BookmarkLog(t.log, t2.log, t3.log, r.log);
      r
  }

  /** The events a bookmark scan adds besides the saves report no game. */
  lemma BookmarkLog(l0: seq<Event>, l2: seq<Event>, l3: seq<Event>, r: seq<Event>)
    requires |l0| + 2 == |l2| && l2[..|l0|] == l0 && !l2[|l0|].Found? && !l2[|l0| + 1].Found?
    requires |l3| >= |l2| && l3[..|l2|] == l2 && MarkedFrom(l3, |l2|)
    requires |r| >= |l3| && r[..|l3|] == l3 && forall i :: |l3| <= i < |r| ==> !r[i].Found?
    ensures MarkedFrom(r, |l0|) && r[|l0|] == l2[|l0|]
  {
    forall i | |l0| <= i < |r| && r[i].Found? ensures Get(r[i].game, KIsBookmarked) == VBool(true) {
      if i < |l2| {
        assert false;
      } else if i < |l3| {
        assert r[i] == l3[i];
      }
    }
    assert r[|l0|] == l3[|l0|];
  }

  /** The thread result a details scan saves: one that is neither `None`
      nor an empty dict. */
  predicate Saveable(outcome: Result<Option<Record>, string>) {
    outcome.Ok? && outcome.value.Some? && outcome.value.value != map[]
  }

  /** The non-empty results of scraping the urls, in order. */
  function DetailRecords(scrape: string -> Result<Option<Record>, string>, urls: seq<string>): seq<Record>
    decreases |urls|
  {
    if urls == [] then []
    else Kept(scrape(urls[0])) + DetailRecords(scrape, urls[1..])
  }

  /** The record a details scan saves from one scrape, if any. */
  function Kept(outcome: Result<Option<Record>, string>): (r: seq<Record>)
    ensures |r| <= 1
  {
    if Saveable(outcome) then [outcome.value.value] else []
  }

  /** One turn of `_scrape_details` once the flag was read clear: the
      thread is announced and scraped, and a non-empty result saved. */
  function DetailOne<S>(url: string, idx: nat, total: nat, t: Tally<S>, scraper: Scraper, save: Save<S>)
    : (r: Tally<S>)
    ensures Grows(t, r) && r.checks > t.checks && r.saved <= t.saved + 1
    ensures r.store == SaveAll(save, t.store, Kept(scraper.scrapeDetails(url)))
  {
    var t1 := Note(t.(checks := t.checks + 1), [Progress("Scraping game " + NatStr(idx + 1) + "/" + NatStr(total))]);
    var outcome := scraper.scrapeDetails(url);
    if !Saveable(outcome) then t1
    else
      assert Kept(outcome) == [outcome.value.value];
      match save.upsert(t1.store, outcome.value.value)
      case None => t1
      case Some(p) =>
        var found := Found(Reported(save, outcome.value.value, p.1));
        FoundCountAppend(t1.log, [found]);
        var r := Tally(p.0, t1.log + [found], t1.checks, t1.saved + 1);
        assert r.log[..|t1.log|] == t1.log;
        GrowsTrans(t, t1, r);
        r
  }

  /** The loop of `_scrape_details`: before each url the stop flag is read;
      a scrape or save that raises is skipped. */
  function DetailLoop<S>(urls: seq<string>, idx: nat, total: nat, t: Tally<S>, scraper: Scraper, save: Save<S>,
                         stop: StopAt): (r: Tally<S>)
    ensures Grows(t, r) && r.saved - t.saved <= |urls|
    ensures Halted(t.checks, stop) ==> r.store == t.store && r.log == t.log && r.saved == t.saved
    ensures stop.None? ==> r.store == SaveAll(save, t.store, DetailRecords(scraper.scrapeDetails, urls))
    decreases |urls|
  {
    if urls == [] then t
    else if Halted(t.checks, stop) then t.(checks := t.checks + 1)
    else
      var t1 := DetailOne(urls[0], idx, total, t, scraper, save);
      var r := DetailLoop(urls[1..], idx + 1, total, t1, scraper, save, stop);
      GrowsTrans(t, t1, r);
      if stop.None? then
        SaveAllAppend(save, t.store, Kept(scraper.scrapeDetails(urls[0])), DetailRecords(scraper.scrapeDetails, urls[1..]));
        r
      else r
  }

  /** `_scrape_details`: each url in turn, then completion and the number of
      urls given, however many were saved. */
  function ScrapeDetails<S>(urls: seq<string>, t: Tally<S>, scraper: Scraper, save: Save<S>, stop: StopAt)
    : (r: Tally<S>)
    ensures Grows(t, r) && r.saved - t.saved <= |urls| && |r.log| >= |t.log| + 2
    ensures r.log[|r.log| - 1] == Finished(|urls|) && r.log[|r.log| - 2] == Progress("Detail scraping complete!")
    ensures Halted(t.checks, stop) ==> r.store == t.store && r.saved == t.saved
    ensures stop.None? ==> r.store == SaveAll(save, t.store, DetailRecords(scraper.scrapeDetails, urls))
  {
    var t1 := DetailLoop(urls, 0, |urls|, t, scraper, save, stop);
    var r := Note(t1, [Progress("Detail scraping complete!"), Finished(|urls|)]);
    GrowsTrans(t, t1, r);
    r
  }

  // ----- run ---------------------------------------------------------------

  /** The message `run` opens with. */
  const Opening: string := "Initializing scraper..."

  /** The worker's state when `run` starts. */
  function Start<S>(store: S): Tally<S> {
    Tally(store, [Progress(Opening)], 0, 0)
  }

  /** `run`: the scraper is initialised, which may fail with an error
      event, and then the scan of the job's type runs; any other type scans
      nothing. */
  function RunJob<S>(job: Job, store: S, scraper: Scraper, save: Save<S>, stop: StopAt): (r: Tally<S>)
    ensures |r.log| >= 1 && r.log[0] == Progress(Opening)
    ensures scraper.initError.Some? ==>
      r == Start(store).(log := [Progress(Opening), Failure("Scraping error: " + scraper.initError.value)])
    ensures scraper.initError.None? && job.scanType !in ["forums", "bookmarks", "details"] ==> r == Start(store)
    ensures FoundCount(r.log) == r.saved
    ensures stop == Some(0) ==> r.store == store && r.saved == 0
  {
    var t := Start(store);
    assert FoundCount(t.log) == 0;
    if scraper.initError.Some? then Note(t, [Failure("Scraping error: " + scraper.initError.value)])
    else
      var r := Scan(job, t, scraper, save, stop);
      assert r.log[..1] == t.log;
      r
  }

  /** The scan of the job's type, from `t` on. */
  function Scan<S>(job: Job, t: Tally<S>, scraper: Scraper, save: Save<S>, stop: StopAt): (r: Tally<S>)
    ensures Grows(t, r)
    ensures Halted(t.checks, stop) ==> r.store == t.store && r.saved == t.saved
    ensures job.scanType !in ["forums", "bookmarks", "details"] ==> r == t
  {
    if job.scanType == "forums" then ScanForums(job.maxPages, t, scraper, save, stop)
    else if job.scanType == "bookmarks" then ScanBookmarks(job.maxPages, t, scraper, save, stop)
    else if job.scanType == "details" then ScrapeDetails(job.gameUrls, t, scraper, save, stop)
    else t
  }

  /** The count a forum or bookmark scan finishes with is the number of games
      it reports saved; a details scan finishes with the number of urls and
      reports at most that many. */
  lemma FinishedCounts<S>(job: Job, store: S, scraper: Scraper, save: Save<S>, stop: StopAt)
    requires scraper.initError.None?
    ensures var r := RunJob(job, store, scraper, save, stop);
      (job.scanType == "forums" || (job.scanType == "bookmarks" && scraper.scrapeBookmarks(job.maxPages).Ok?)) ==>
        r.log[|r.log| - 1] == Finished(FoundCount(r.log))
    ensures var r := RunJob(job, store, scraper, save, stop);
      job.scanType == "details" ==>
        r.log[|r.log| - 1] == Finished(|job.gameUrls|) && FoundCount(r.log) <= |job.gameUrls|
  {
  }

  /** Left to run, the worker saves exactly what a plain loop over the
      scan's records would: failed forums and failed saves are skipped and
      everything after them is still saved, in order. */
  lemma UnstoppedSavesAll<S>(job: Job, store: S, scraper: Scraper, save: Save<S>)
    requires scraper.initError.None?
    ensures var r := RunJob(job, store, scraper, save, None);
      (job.scanType == "forums" ==>
         r.store == SaveAll(save, store, Harvest(scraper.scanForum, AllowedForumUrls, job.maxPages)))
      && (job.scanType == "bookmarks" && scraper.scrapeBookmarks(job.maxPages).Ok? ==>
         r.store == SaveAll(save, store, Marked(scraper.scrapeBookmarks(job.maxPages).value)))
      && (job.scanType == "details" ==>
         r.store == SaveAll(save, store, DetailRecords(scraper.scrapeDetails, job.gameUrls)))
  {
  }

  /** Every game a bookmark scan reports is marked as a bookmark. */
  lemma BookmarksMarked<S>(job: Job, store: S, scraper: Scraper, save: Save<S>, stop: StopAt)
    requires scraper.initError.None? && job.scanType == "bookmarks"
    ensures var r := RunJob(job, store, scraper, save, stop);
      forall e :: e in r.log && e.Found? ==> Get(e.game, KIsBookmarked) == VBool(true)
  {
    var r := RunJob(job, store, scraper, save, stop);
    forall e | e in r.log && e.Found? ensures Get(e.game, KIsBookmarked) == VBool(true) {
      var i :| 0 <= i < |r.log| && r.log[i] == e;
      assert i != 0;
    }
  }

  /** Saving keeps any property of the store that each single save keeps. */
  lemma {:induction false} SaveAllKeeps<S>(save: Save<S>, s: S, games: seq<Record>, inv: S -> bool)
    requires inv(s)
    requires forall s1: S, g: Record :: inv(s1) && save.upsert(s1, g).Some? ==> inv(save.upsert(s1, g).value.0)
    ensures inv(SaveAll(save, s, games))
    decreases |games|
  {
    if games != [] {
      SaveAllKeeps(save, SaveStep(save, s, games[0]), games[1..], inv);
    }
  }

  // ----- with the catalog store ----------------------------------------------

  /** `upsert_game` on the catalog, `None` where it raises. */
  function CatalogUpsert(s: Catalog.Store, data: Record, parseIso: string -> Option<DateTime>, stamp: string,
                         now: string): (r: Option<(Catalog.Store, nat)>)
    ensures r.Some? <==> Catalog.Upsert(s, data, parseIso, stamp, now).Ok?
    ensures r.Some? ==> r.value == Catalog.Upsert(s, data, parseIso, stamp, now).value
  {
    match Catalog.Upsert(s, data, parseIso, stamp, now)
    case Ok(p) => Some(p)
    case Err(_) => None
  }

  /** The worker's save on the catalog, each upsert with the same clock
      readings. */
  function CatalogSave(parseIso: string -> Option<DateTime>, stamp: string, now: string): Save<Catalog.Store> {
    Save((s: Catalog.Store, data: Record) => CatalogUpsert(s, data, parseIso, stamp, now), parseIso)
  }

  /** Left to run against a consistent catalog, the worker leaves it
      consistent: unique urls and thread ids, the full-text index matching
      the rows, and every tag link and notification naming an existing row. */
  lemma CatalogStaysValid(job: Job, store: Catalog.Store, scraper: Scraper,
                          parseIso: string -> Option<DateTime>, stamp: string, now: string)
    requires Catalog.Valid(store) && scraper.initError.None?
    ensures Catalog.Valid(RunJob(job, store, scraper, CatalogSave(parseIso, stamp, now), None).store)
  {
    var save := CatalogSave(parseIso, stamp, now);
    var inv := (s: Catalog.Store) => Catalog.Valid(s);
    forall s1: Catalog.Store, g: Record | inv(s1) && save.upsert(s1, g).Some? ensures inv(save.upsert(s1, g).value.0) {
      UpsertLaws.UpsertValid(s1, g, parseIso, stamp, now);
    }
    UnstoppedSavesAll(job, store, scraper, save);
    var r := RunJob(job, store, scraper, save, None);
    if job.scanType == "forums" {
      SaveAllKeeps(save, store, Harvest(scraper.scanForum, AllowedForumUrls, job.maxPages), inv);
    } else if job.scanType == "bookmarks" && scraper.scrapeBookmarks(job.maxPages).Ok? {
      SaveAllKeeps(save, store, Marked(scraper.scrapeBookmarks(job.maxPages).value), inv);
    } else if job.scanType == "details" {
      SaveAllKeeps(save, store, DetailRecords(scraper.scrapeDetails, job.gameUrls), inv);
    }
  }
}
