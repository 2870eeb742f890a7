/** The notification service: creating notifications of each kind and
    marking them read. `create_notification` inserts an unread row holding
    the given kind, title, message, game and priority; the three `notify_*`
    helpers fix the kind, title, message and priority of a notice about an
    update, a new game and a finished download; and `mark_all_as_read`
    marks the thousand newest unread rows, leaving any older ones unread. */
module Notify {
  import opened Wrappers
  import opened Values
  import opened Models
  import opened Ordering
  import opened Catalog
  import opened Notices

  /** A notification as `create_notification` builds it: the given kind,
      title, message, game and priority; the declared defaults for the
      rest. Its creation time is not written, so it is left out here. */
  function Built(kind: string, title: string, message: string, gameId: Option<nat>, priority: int): (n: Notification)
    ensures NotificationWellFormed(n)
    ensures Get(n.attrs, KType) == VStr(kind) && Get(n.attrs, KTitle) == VStr(title)
    ensures Get(n.attrs, KMessage) == VStr(message) && Get(n.attrs, KGameId) == GameValue(gameId)
    ensures Get(n.attrs, KPriority) == VInt(priority) && Get(n.attrs, KData) == VStr([])
  {
    Notification(map[
      KId := VNone, KType := VStr(kind), KTitle := VStr(title), KMessage := VStr(message),
      KGameId := GameValue(gameId),
      KIsRead := VBool(false), KPriority := VInt(priority), KCreatedAt := VNone, KReadAt := VNone,
      KData := VStr([])])
  }

  /** Row `id` is an unread notification with these columns. */
  predicate Noticed(s: Store, id: nat, kind: string, title: string, message: string, game: Value, priority: int) {
    id in s.notifications
    && var row := s.notifications[id];
    Get(row, KType) == VStr(kind) && Get(row, KTitle) == VStr(title) && Get(row, KMessage) == VStr(message)
    && Get(row, KGameId) == game && Get(row, KPriority) == VInt(priority) && Unread(row)
  }

  /** The game column of a notification about `gameId`, if any. */
  function GameValue(gameId: Option<nat>): Value {
    if gameId.Some? then VInt(gameId.value) else VNone
  }

  /** `create_notification`: the new row holds exactly what was given and
      is unread, and the other rows are untouched; the insert fails only for
      a game that does not exist. */
  function CreateNotification(s: Store, kind: string, title: string, message: string, gameId: Option<nat>,
                              priority: int, stamp: string): (r: Result<(Store, nat), DbError>)
    ensures r.Ok? <==> gameId.None? || gameId.value in s.games
    ensures r.Ok? ==> r.value.1 == s.nextNotificationId
    ensures r.Ok? ==> r.value.0.notifications.Keys == s.notifications.Keys + {r.value.1}
    ensures r.Ok? ==> forall i :: i in s.notifications && i != r.value.1 ==>
      r.value.0.notifications[i] == s.notifications[i]
    ensures r.Ok? ==> Noticed(r.value.0, r.value.1, kind, title, message, GameValue(gameId), priority)
  {
    var n := Built(kind, title, message, gameId, priority);
    CreatedWhen(s, n, gameId, stamp);
    CreatedKeeps(s, n, stamp);
    CreatedRow(s, kind, title, message, gameId, priority, stamp);
    AddNotification(s, n, stamp)
  }

  lemma CreatedWhen(s: Store, n: Notification, gameId: Option<nat>, stamp: string)
    requires Get(n.attrs, KType).VStr? && Get(n.attrs, KTitle).VStr? && Get(n.attrs, KGameId) == GameValue(gameId)
    ensures AddNotification(s, n, stamp).Ok? <==> gameId.None? || gameId.value in s.games
  {
    var row := NoticeRow(n, stamp);
    assert row[KType] == Get(n.attrs, KType) && row[KTitle] == Get(n.attrs, KTitle);
    assert row[KGameId] == GameValue(gameId);
  }

  lemma CreatedKeeps(s: Store, n: Notification, stamp: string)
    ensures var r := AddNotification(s, n, stamp);
      r.Ok? ==>
        (r.value.1 == s.nextNotificationId
         && r.value.0.notifications.Keys == s.notifications.Keys + {r.value.1}
         && forall i :: i in s.notifications && i != r.value.1 ==> r.value.0.notifications[i] == s.notifications[i])
  {
    Inserted(s, AddNotification(s, n, stamp), NoticeRow(n, stamp));
  }

  /** An insert that puts `row` under the next id adds that one key and
      leaves every other row alone. */
  lemma Inserted(s: Store, r: Result<(Store, nat), DbError>, row: Record)
    requires r.Ok? ==> r.value.1 == s.nextNotificationId
    requires r.Ok? ==> r.value.0.notifications == s.notifications[s.nextNotificationId := row]
    ensures r.Ok? ==>
      (r.value.1 == s.nextNotificationId
       && r.value.0.notifications.Keys == s.notifications.Keys + {r.value.1}
       && forall i :: i in s.notifications && i != r.value.1 ==> r.value.0.notifications[i] == s.notifications[i])
  {
  }

  lemma CreatedRow(s: Store, kind: string, title: string, message: string, gameId: Option<nat>, priority: int,
                   stamp: string)
    ensures var r := AddNotification(s, Built(kind, title, message, gameId, priority), stamp);
      r.Ok? ==> Noticed(r.value.0, r.value.1, kind, title, message, GameValue(gameId), priority)
  {
    var n := Built(kind, title, message, gameId, priority);
    BuiltRow(s, kind, title, message, gameId, priority, stamp);
    var r := AddNotification(s, n, stamp);
    if r.Ok? {
      assert r.value.0.notifications[r.value.1] == NoticeRow(n, stamp);
    }
  }

  lemma BuiltRow(s: Store, kind: string, title: string, message: string, gameId: Option<nat>, priority: int,
                 stamp: string)
    ensures var row := NoticeRow(Built(kind, title, message, gameId, priority), stamp);
      (NoticeShape(s.games, row) <==> gameId.None? || gameId.value in s.games)
      && Get(row, KType) == VStr(kind) && Get(row, KTitle) == VStr(title)
      && Get(row, KMessage) == VStr(message) && Get(row, KGameId) == GameValue(gameId)
      && Get(row, KPriority) == VInt(priority) && Unread(row)
  {
    var row := NoticeRow(Built(kind, title, message, gameId, priority), stamp);
    assert row[KGameId] == GameValue(gameId);
  }

  /** `notify_game_update`: an urgent notice that a newer version of a
      game is out. */
  function NotifyGameUpdate(s: Store, gameId: nat, title: string, oldVersion: string, newVersion: string,
                            stamp: string): (r: Result<(Store, nat), DbError>)
    ensures r.Ok? <==> gameId in s.games
    ensures r.Ok? ==> Noticed(r.value.0, r.value.1, "game_update", "Update Available: " + title,
                              "Version " + oldVersion + " → " + newVersion, VInt(gameId), 1)
  {
    CreateNotification(s, "game_update", "Update Available: " + title,
      "Version " + oldVersion + " → " + newVersion, Some(gameId), 1, stamp)
  }

  /** `notify_new_game`: an ordinary notice, with no message, that a game
      was added. */
  function NotifyNewGame(s: Store, gameId: nat, title: string, stamp: string): (r: Result<(Store, nat), DbError>)
    ensures r.Ok? <==> gameId in s.games
    ensures r.Ok? ==> Noticed(r.value.0, r.value.1, "new_game", "New Game Added: " + title, [], VInt(gameId), 0)
  {
    CreateNotification(s, "new_game", "New Game Added: " + title, [], Some(gameId), 0, stamp)
  }

  /** `notify_download_complete`: an urgent notice, with no message, that a
      download finished. */
  function NotifyDownloadComplete(s: Store, gameId: nat, title: string, stamp: string)
    : (r: Result<(Store, nat), DbError>)
    ensures r.Ok? <==> gameId in s.games
    ensures r.Ok? ==> Noticed(r.value.0, r.value.1, "download_complete", "Download Complete: " + title, [],
                              VInt(gameId), 1)
  {
    CreateNotification(s, "download_complete", "Download Complete: " + title, [], Some(gameId), 1, stamp)
  }

  /** How many notifications `mark_all_as_read` fetches. */
  const MarkAllLimit: int := 1000

  /** Marks each id in turn, skipping a falsy (zero) id. */
  function MarkEach(s: Store, ids: seq<nat>, now: string): (r: Store)
    ensures r == s.(notifications := r.notifications)
    decreases |ids|
  {
    if ids == [] then s
    else
      var s1 := if ids[0] != 0 then MarkRead(s, ids[0], now) else s;
      MarkEach(s1, ids[1..], now)
  }

  /** Marking a list of ids read takes exactly them out of the unread rows. */
  lemma {:induction false} MarkEachEffect(s: Store, ids: seq<nat>, now: string)
    requires Valid(s)
    ensures Valid(MarkEach(s, ids, now))
    ensures forall x :: x in UnreadIds(MarkEach(s, ids, now)) <==> x in UnreadIds(s) && x !in ids
    decreases |ids|
  {
    if ids != [] {
      var s1 := if ids[0] != 0 then MarkRead(s, ids[0], now) else s;
      if ids[0] != 0 {
        MarkReadEffect(s, ids[0], now);
      } else {
        assert ids[0] !in s.notifications;
      }
      MarkEachEffect(s1, ids[1..], now);
      assert forall x :: x in ids <==> x == ids[0] || x in ids[1..];
    }
  }

  /** `mark_all_as_read`: reads the newest thousand unread notifications and
      marks each read. */
  function MarkAllAsRead(s: Store, now: string): (r: Store)
    requires NotificationsValid(s)
    ensures r == s.(notifications := r.notifications)
  {
    MarkEach(s, UnreadPage(s, MarkAllLimit), now)
  }

  /** After `mark_all_as_read` the unread rows left are those beyond the
      first thousand, none newer than any it marked; with a thousand or
      fewer unread, none are left. */
  lemma MarkAllAsReadEffect(s: Store, now: string)
    requires Valid(s)
    ensures Valid(MarkAllAsRead(s, now))
    ensures UnreadIds(MarkAllAsRead(s, now)) <= UnreadIds(s)
    ensures |UnreadIds(s)| <= MarkAllLimit ==> UnreadIds(MarkAllAsRead(s, now)) == {}
    ensures |UnreadIds(s)| > MarkAllLimit ==> |UnreadIds(MarkAllAsRead(s, now))| == |UnreadIds(s)| - MarkAllLimit
    ensures forall x, y :: x in UnreadIds(MarkAllAsRead(s, now)) && y in UnreadIds(s) - UnreadIds(MarkAllAsRead(s, now)) ==>
      Below(CreatedOf(s.notifications, x), CreatedOf(s.notifications, y))
  {
    MarkAllLeaves(s, now);
    var page := UnreadPage(s, MarkAllLimit);
    var all, left, marked := UnreadIds(s), UnreadIds(MarkAllAsRead(s, now)), Elems(page);
    PageCount(s, page);
    if |all| > MarkAllLimit {
      DiffCount(all, marked);
    }
    LeftNoNewer(s, page, left);
  }

  /** `mark_all_as_read` marks exactly the unread rows of the page it reads. */
  lemma MarkAllLeaves(s: Store, now: string)
    requires Valid(s)
    ensures Valid(MarkAllAsRead(s, now))
    ensures UnreadIds(MarkAllAsRead(s, now)) == UnreadIds(s) - Elems(UnreadPage(s, MarkAllLimit))
  {
    var page := UnreadPage(s, MarkAllLimit);
    var r := MarkEach(s, page, now);
    assert MarkAllAsRead(s, now) == r;
    MarkEachEffect(s, page, now);
    forall x ensures x in UnreadIds(r) <==> x in UnreadIds(s) - Elems(page) {
      assert x in Elems(page) <==> x in page;
    }
    assert UnreadIds(r) == UnreadIds(s) - Elems(page);
  }

  /** The unread rows a page leaves out are no newer than those it holds. */
  lemma LeftNoNewer(s: Store, page: seq<nat>, left: set<nat>)
    requires NotificationsValid(s) && page == UnreadPage(s, MarkAllLimit)
    requires left == UnreadIds(s) - Elems(page)
    ensures forall x, y :: x in left && y in UnreadIds(s) - left ==>
      Below(CreatedOf(s.notifications, x), CreatedOf(s.notifications, y))
  {
    UnreadPageNewest(s, MarkAllLimit);
    forall x, y | x in left && y in UnreadIds(s) - left
      ensures Below(CreatedOf(s.notifications, x), CreatedOf(s.notifications, y))
    {
      assert y in page;
      var k :| 0 <= k < |page| && page[k] == y;
    }
  }

  lemma DiffCount(all: set<nat>, part: set<nat>)
    requires part <= all
    ensures |all - part| == |all| - |part|
  {
    assert all == (all - part) + part;
  }

  /** A page is as long as its ids are many: the newest `min(limit, n)`. */
  lemma PageCount(s: Store, page: seq<nat>)
    requires NotificationsValid(s) && page == UnreadPage(s, MarkAllLimit)
    ensures Elems(page) <= UnreadIds(s)
    ensures |UnreadIds(s)| <= MarkAllLimit ==> Elems(page) == UnreadIds(s)
    ensures |UnreadIds(s)| > MarkAllLimit ==> |Elems(page)| == MarkAllLimit
  {
    var all := NewestUnread(s);
    forall k | 0 <= k < |page| ensures page[k] in UnreadIds(s) {
      UnreadPageUnread(s, MarkAllLimit, k);
    }
    if |UnreadIds(s)| <= MarkAllLimit {
      forall x | x in UnreadIds(s) ensures x in page {
        assert x in multiset(all);
      }
    } else {
      UnreadPageNewest(s, MarkAllLimit);
      DistinctCount(page);
    }
  }

  /** The elements of a sequence. */
  function Elems(xs: seq<nat>): set<nat> {
    set x | x in xs
  }

  /** A sequence without repeats has as many distinct elements as it is long. */
  lemma {:induction false} DistinctCount(xs: seq<nat>)
    requires forall a, b :: 0 <= a < b < |xs| ==> xs[a] != xs[b]
    ensures |Elems(xs)| == |xs|
    decreases |xs|
  {
    if xs != [] {
      DistinctCount(xs[1..]);
      assert forall i :: 0 <= i < |xs[1..]| ==> xs[1..][i] == xs[i + 1] != xs[0];
      assert xs[0] !in Elems(xs[1..]);
      assert Elems(xs) == Elems(xs[1..]) + {xs[0]};
    }
  }
}
