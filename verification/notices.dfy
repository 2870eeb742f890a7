/** The notifications table: `add_notification`, `get_unread_notifications`,
    `mark_notification_read` and `get_unread_count`. A row is inserted under
    the next id and starts unread; the unread rows are read back newest
    first, at most `limit` of them unless the limit is negative; marking a
    row read changes only that row; and the count is the number of unread
    rows, each counted once. The store stays valid throughout. */
module Notices {
  import opened Wrappers
  import opened Values
  import opened Models
  import opened Ordering
  import opened Lists
  import opened Catalog

  // ----- insert -----------------------------------------------------------

  /** The row `add_notification` inserts: the notification's type, title,
      message, game, priority and data; `is_read` and `created_at` from
      their declared defaults (`stamp` is `CURRENT_TIMESTAMP`), and a NULL
      `read_at`. The notification's own `is_read` and `created_at` are not
      written. */
  function NoticeRow(n: Notification, stamp: string): (row: Record)
    ensures forall k :: k in row <==> IsNoticeColumn(k)
    ensures forall k :: k in row && k != KIsRead && k != KCreatedAt && k != KReadAt ==> row[k] == Get(n.attrs, k)
    ensures KIsRead in row && row[KIsRead] == VInt(0)
    ensures KCreatedAt in row && row[KCreatedAt] == VStr(stamp)
    ensures KReadAt in row && row[KReadAt] == VNone
  {
    map k: Key | IsNoticeColumn(k) ::
      if k == KIsRead then VInt(0)
      else if k == KCreatedAt then VStr(stamp)
      else if k == KReadAt then VNone
      else Get(n.attrs, k)
  }

  /** `add_notification`: the row gets the next id, which is returned. A
      NULL type or title, or a game that does not exist, makes the insert
      fail and changes nothing. */
  function AddNotification(s: Store, n: Notification, stamp: string): (r: Result<(Store, nat), DbError>)
    ensures r.Ok? <==> NoticeShape(s.games, NoticeRow(n, stamp))
    ensures r.Ok? ==> r.value.1 == s.nextNotificationId
    ensures r.Ok? ==> r.value.0 == s.(notifications := s.notifications[s.nextNotificationId := NoticeRow(n, stamp)],
                                      nextNotificationId := s.nextNotificationId + 1)
  {
    var row := NoticeRow(n, stamp);
    if row[KType] == VNone then Err(NotNull(KType))
    else if row[KTitle] == VNone then Err(NotNull(KTitle))
    else if !GameRef(s.games, row[KGameId]) then Err(ForeignKey)
    else
      var id := s.nextNotificationId;
      Ok((s.(notifications := s.notifications[id := row], nextNotificationId := id + 1), id))
  }

  /** A successful insert keeps the store valid and adds one unread row. */
  lemma AddNotificationValid(s: Store, n: Notification, stamp: string)
    requires Valid(s) && AddNotification(s, n, stamp).Ok?
    ensures var r := AddNotification(s, n, stamp).value.0;
      Valid(r) && UnreadIds(r) == UnreadIds(s) + {s.nextNotificationId}
      && s.nextNotificationId !in UnreadIds(s)
  {
    var r := AddNotification(s, n, stamp).value.0;
    InsertNoticeValid(s, NoticeRow(n, stamp));
    OnlyNoticesChange(s, r);
    InsertNoticeUnread(s, NoticeRow(n, stamp));
  }

  lemma InsertNoticeUnread(s: Store, row: Record)
    requires NotificationsValid(s) && Unread(row)
    ensures var r := s.(notifications := s.notifications[s.nextNotificationId := row],
                        nextNotificationId := s.nextNotificationId + 1);
      UnreadIds(r) == UnreadIds(s) + {s.nextNotificationId} && s.nextNotificationId !in UnreadIds(s)
  {
  }

  lemma InsertNoticeValid(s: Store, row: Record)
    requires NotificationsValid(s) && NoticeShape(s.games, row)
    ensures NotificationsValid(s.(notifications := s.notifications[s.nextNotificationId := row],
                                  nextNotificationId := s.nextNotificationId + 1))
  {
  }

  /** A store whose notifications alone changed is valid when they are. */
  lemma OnlyNoticesChange(s: Store, r: Store)
    requires Valid(s) && NotificationsValid(r)
    requires r == s.(notifications := r.notifications, nextNotificationId := r.nextNotificationId)
    ensures Valid(r)
  {
  }

  // ----- unread -----------------------------------------------------------

  /** A row not yet read. */
  predicate Unread(row: Record) {
    Get(row, KIsRead) == VInt(0)
  }

  /** The ids of the unread rows. */
  function UnreadIds(s: Store): set<nat> {
    set i | i in s.notifications && Unread(s.notifications[i])
  }

  /** The unread ids from `i` up to `bound`. */
  function UnreadBetween(rows: map<nat, Record>, i: nat, bound: nat): set<nat> {
    set x | x in rows && i <= x < bound && Unread(rows[x])
  }

  /** `SELECT COUNT(*) ... WHERE is_read = 0` over the ids from `i` up to
      `bound`. */
  function CountFrom(rows: map<nat, Record>, i: nat, bound: nat): (r: nat)
    ensures r == |UnreadBetween(rows, i, bound)|
    decreases bound - i
  {
    if i >= bound then
      assert UnreadBetween(rows, i, bound) == {};
      0
    else
      var rest := CountFrom(rows, i + 1, bound);
      if i in rows && Unread(rows[i]) then
        assert UnreadBetween(rows, i, bound) == UnreadBetween(rows, i + 1, bound) + {i};
        rest + 1
      else
        assert UnreadBetween(rows, i, bound) == UnreadBetween(rows, i + 1, bound);
        rest
  }

  /** `get_unread_count`: the number of unread rows. */
  function UnreadCount(s: Store): (r: nat)
    requires NotificationsValid(s)
    ensures r == |UnreadIds(s)|
  {
    assert UnreadBetween(s.notifications, 0, s.nextNotificationId) == UnreadIds(s);
    CountFrom(s.notifications, 0, s.nextNotificationId)
  }

  /** The unread ids from `i` up to `bound`, ascending, each once. */
  function UnreadFrom(rows: map<nat, Record>, i: nat, bound: nat): (r: seq<nat>)
    ensures forall x :: multiset(r)[x] == if x in rows && i <= x < bound && Unread(rows[x]) then 1 else 0
    decreases bound - i
  {
    if i >= bound then []
    else
      var rest := UnreadFrom(rows, i + 1, bound);
      if i in rows && Unread(rows[i]) then [i] + rest else rest
  }

  /** The text a row is ordered by when newest comes first. */
  function CreatedOf(rows: map<nat, Record>, id: nat): string {
    if id in rows && Get(rows[id], KCreatedAt).VStr? then Get(rows[id], KCreatedAt).s else []
  }

  /** The unread ids, newest first: each unread id once, in descending
      order of `created_at`. */
  function NewestUnread(s: Store): (r: seq<nat>)
    requires NotificationsValid(s)
    ensures forall x :: multiset(r)[x] == if x in UnreadIds(s) then 1 else 0
    ensures |r| == |UnreadIds(s)|
    ensures forall a, b :: 0 <= a < b < |r| ==>
      Below(CreatedOf(s.notifications, r[b]), CreatedOf(s.notifications, r[a]))
  {
    var rows := s.notifications;
    var key := (id: nat) => CreatedOf(rows, id);
    var up := SortBy(UnreadFrom(rows, 0, s.nextNotificationId), key);
    ReverseSorted(up, key);
    var r := Reverse(up);
    assert SortedDownBy(r, key);
    CountedOnce(r, UnreadIds(s));
    r
  }

  /** A sequence that holds each element of a set once, and nothing else,
      is as long as the set is large. */
  lemma {:induction false} CountedOnce(r: seq<nat>, ids: set<nat>)
    requires forall x :: multiset(r)[x] == if x in ids then 1 else 0
    ensures |r| == |ids|
    decreases |r|
  {
    if r == [] {
      assert forall x :: x !in ids by {
        forall x ensures x !in ids {
          assert multiset(r)[x] == 0;
        }
      }
      assert ids == {};
    } else {
      var x := r[0];
      var rest := r[1..];
      assert r == [x] + rest;
      assert multiset(r)[x] >= 1;
      var others := ids - {x};
      forall y ensures multiset(rest)[y] == if y in others then 1 else 0 {
        assert multiset(r) == multiset{x} + multiset(rest);
      }
      CountedOnce(rest, others);
    }
  }

  /** The ids `get_unread_notifications` returns rows for: `LIMIT` with a
      negative limit returns every row. */
  function UnreadPage(s: Store, limit: int): (r: seq<nat>)
    requires NotificationsValid(s)
    ensures limit >= 0 ==> |r| <= limit
    ensures limit < 0 || |UnreadIds(s)| <= limit ==> r == NewestUnread(s)
    ensures forall k :: 0 <= k < |r| ==> r[k] == NewestUnread(s)[k]
  {
    if limit < 0 then NewestUnread(s) else Take(NewestUnread(s), limit)
  }

  /** `get_unread_notifications`: the page of rows read back with
      `Notification.from_dict`, their ids included. */
  function GetUnread(s: Store, limit: int): (r: seq<Notification>)
    requires NotificationsValid(s)
    ensures |r| == |UnreadPage(s, limit)|
    ensures forall k :: 0 <= k < |r| ==> var id := UnreadPage(s, limit)[k];
      id in s.notifications && r[k] == NotificationFromDict(s.notifications[id][KId := VInt(id)])
  {
    var ids := UnreadPage(s, limit);
    PageStored(s, limit);
    seq(|ids|, k requires 0 <= k < |ids| => NotificationFromDict(s.notifications[ids[k]][KId := VInt(ids[k])]))
  }

  /** Every id of a page is a stored row's. */
  lemma PageStored(s: Store, limit: int)
    requires NotificationsValid(s)
    ensures forall k :: 0 <= k < |UnreadPage(s, limit)| ==> UnreadPage(s, limit)[k] in s.notifications
  {
    forall k | 0 <= k < |UnreadPage(s, limit)| ensures UnreadPage(s, limit)[k] in s.notifications {
      UnreadPageUnread(s, limit, k);
    }
  }

  /** Every id of a page is an unread row's, and no id occurs twice. */
  lemma UnreadPageUnread(s: Store, limit: int, k: nat)
    requires NotificationsValid(s) && k < |UnreadPage(s, limit)|
    ensures UnreadPage(s, limit)[k] in UnreadIds(s)
  {
    var r := NewestUnread(s);
    assert r[k] in multiset(r);
  }

  /** A page holds each unread row at most once, and the rows it leaves out
      are no newer than any it returns: the newest unread rows come back. */
  lemma UnreadPageNewest(s: Store, limit: int)
    requires NotificationsValid(s)
    ensures var page := UnreadPage(s, limit);
      (forall a, b :: 0 <= a < b < |page| ==> page[a] != page[b])
      && (forall x, k :: x in UnreadIds(s) && x !in page && 0 <= k < |page| ==>
            Below(CreatedOf(s.notifications, x), CreatedOf(s.notifications, page[k])))
  {
    var page := UnreadPage(s, limit);
    var all := NewestUnread(s);
    forall a, b | 0 <= a < b < |page| ensures page[a] != page[b] {
      if page[a] == page[b] {
        TwiceCounted(all, a, b);
        assert false;
      }
    }
    forall x, k | x in UnreadIds(s) && x !in page && 0 <= k < |page|
      ensures Below(CreatedOf(s.notifications, x), CreatedOf(s.notifications, page[k]))
    {
      LeftOutIsOlder(s, limit, x, k);
    }
  }

  lemma LeftOutIsOlder(s: Store, limit: int, x: nat, k: nat)
    requires NotificationsValid(s)
    requires x in UnreadIds(s) && x !in UnreadPage(s, limit) && k < |UnreadPage(s, limit)|
    ensures Below(CreatedOf(s.notifications, x), CreatedOf(s.notifications, UnreadPage(s, limit)[k]))
  {
    var page := UnreadPage(s, limit);
    var all := NewestUnread(s);
    assert x in multiset(all);
    assert |page| <= |all|;
    PastPrefixOlder(s.notifications, all, page, x, k);
  }

  /** In a list from newest to oldest, an element past a prefix is no newer
      than any element of the prefix. */
  lemma PastPrefixOlder(rows: map<nat, Record>, all: seq<nat>, page: seq<nat>, x: nat, k: nat)
    requires |page| <= |all| && forall i :: 0 <= i < |page| ==> page[i] == all[i]
    requires x in all && x !in page && k < |page|
    requires forall a, b :: 0 <= a < b < |all| ==> Below(CreatedOf(rows, all[b]), CreatedOf(rows, all[a]))
    ensures Below(CreatedOf(rows, x), CreatedOf(rows, page[k]))
  {
    var j :| 0 <= j < |all| && all[j] == x;
    assert k < j;
  }

  /** Every notification read back from a page is unread. */
  lemma GetUnreadAreUnread(s: Store, limit: int, k: nat)
    requires NotificationsValid(s) && k < |GetUnread(s, limit)|
    ensures Get(GetUnread(s, limit)[k].attrs, KIsRead) == VBool(false)
  {
    UnreadPageUnread(s, limit, k);
    var id := UnreadPage(s, limit)[k];
    UnreadRowReadBack(s, id);
    assert GetUnread(s, limit)[k] == NotificationFromDict(s.notifications[id][KId := VInt(id)]);
  }

  /** An unread row, read back with its id, is unread. */
  lemma UnreadRowReadBack(s: Store, id: nat)
    requires NotificationsValid(s) && id in UnreadIds(s)
    ensures Get(NotificationFromDict(s.notifications[id][KId := VInt(id)]).attrs, KIsRead) == VBool(false)
  {
    var d := s.notifications[id][KId := VInt(id)];
    assert KIsRead in d && d[KIsRead] == VInt(0);
    ReadBackUnread(d);
  }

  lemma ReadBackUnread(d: Record)
    requires KIsRead in d && d[KIsRead] == VInt(0)
    ensures Get(NotificationFromDict(d).attrs, KIsRead) == VBool(false)
  {
  }

  // ----- read marking -----------------------------------------------------

  /** `mark_notification_read`: the row's `is_read` becomes 1 and its
      `read_at` the clock reading `now`; an id no row has changes nothing. */
  function MarkRead(s: Store, id: int, now: string): (r: Store)
    ensures id < 0 || id !in s.notifications ==> r == s
    ensures r == s.(notifications := r.notifications)
    ensures r.notifications.Keys == s.notifications.Keys
  {
    if id < 0 || id !in s.notifications then s
    else
      var row := s.notifications[id];
      s.(notifications := s.notifications[id := row[KIsRead := VInt(1)][KReadAt := VStr(now)]])
  }

  /** Marking a row read takes exactly it out of the unread rows, lowers the
      count by one when it was unread, and keeps the store valid. */
  lemma MarkReadEffect(s: Store, id: nat, now: string)
    requires Valid(s)
    ensures var r := MarkRead(s, id, now);
      Valid(r) && UnreadIds(r) == UnreadIds(s) - {id}
      && UnreadCount(r) == if id in UnreadIds(s) then UnreadCount(s) - 1 else UnreadCount(s)
  {
    var r := MarkRead(s, id, now);
    if id in s.notifications {
      MarkReadShape(s, id, now);
      OnlyNoticesChange(s, r);
      assert UnreadIds(r) == UnreadIds(s) - {id};
    }
  }

  lemma MarkReadShape(s: Store, id: nat, now: string)
    requires NotificationsValid(s)
    ensures NotificationsValid(MarkRead(s, id, now))
  {
    var r := MarkRead(s, id, now);
    forall m | m in r.notifications ensures 1 <= m < r.nextNotificationId && NoticeShape(r.games, r.notifications[m]) {
      assert NoticeShape(s.games, s.notifications[m]);
    }
  }
}
