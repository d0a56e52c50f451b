/** The notification service: a capped, prioritised inbox query, creation that
    always starts unread, idempotent mark-as-read and the unread count, over the
    `Notifications` table. */
module Notifications {
  import opened Common
  import opened Query

  /** The hard cap of the inbox query (`Take(50)`). */
  const MaxPage: nat := 50

  /** A row of `Notifications`. `priority` is the ordinal of the priority
      enumeration; `title` and `message` stand for the content columns. */
  datatype Notification = Notification(
    id: int,
    userId: int,
    title: string,
    message: string,
    priority: nat,
    createdDate: Timestamp,
    isRead: bool)

  /** The table in store order, with its identity seed. */
  datatype NotificationTable = NotificationTable(rows: seq<Notification>, nextId: int)

  ghost predicate ValidTable(t: NotificationTable) {
    && (forall i :: 0 <= i < |t.rows| ==> t.rows[i].id < t.nextId)
    && (forall i, j :: 0 <= i < j < |t.rows| ==> t.rows[i].id != t.rows[j].id)
  }

  function HasId(id: int): Notification -> bool {
    (n: Notification) => n.id == id
  }

  /** The inbox filter: addressed to `userId`, and unread when `unreadOnly`.
      With `unreadOnly` set it is also the unread-count filter. */
  function Wanted(userId: int, unreadOnly: bool): Notification -> bool {
    (n: Notification) => n.userId == userId && (!unreadOnly || !n.isRead)
  }

  /** `OrderByDescending(Priority).ThenByDescending(CreatedDate)`: `a` may come before `b`. */
  predicate Ahead(a: Notification, b: Notification) {
    a.priority > b.priority || (a.priority == b.priority && a.createdDate >= b.createdDate)
  }

  lemma AheadTotalPreorder()
    ensures TotalPreorder(Ahead)
  {
  }

  /** `FindAsync` on the primary key. */
  function NotificationById(rows: seq<Notification>, id: int): (r: Option<Notification>)
    ensures r.Some? ==> r.value in rows && r.value.id == id
    ensures r.None? <==> forall n :: n in rows ==> n.id != id
  {
    var k := FindIndex(rows, HasId(id));
    if k.Some? then Some(rows[k.value]) else None
  }

  /** Every matching notification, in inbox order, before the cap. */
  function Inbox(rows: seq<Notification>, userId: int, unreadOnly: bool): (r: seq<Notification>)
    ensures |r| == Count(rows, Wanted(userId, unreadOnly))
    ensures forall n :: multiset(r)[n] ==
              if n.userId == userId && (unreadOnly ==> !n.isRead) then multiset(rows)[n] else 0
    ensures forall n :: n in r ==> n.userId == userId && (unreadOnly ==> !n.isRead)
    ensures Sorted(r, Ahead)
  {
    AheadTotalPreorder();
    var f := Filter(rows, Wanted(userId, unreadOnly));
    var r := SortBy(f, Ahead);
    assert forall n :: n in r ==> n in multiset(f);
    r
  }

  /** `GetUserNotificationsAsync`: the first `MaxPage` of the user's (unread)
      notifications, most urgent first, newest first within a priority. */
  function UserNotifications(rows: seq<Notification>, userId: int, unreadOnly: bool): (r: seq<Notification>)
    ensures forall n :: n in r ==> n.userId == userId && (unreadOnly ==> !n.isRead)
    ensures |r| == Min(MaxPage, Count(rows, Wanted(userId, unreadOnly)))
    ensures forall n :: multiset(r)[n] <= multiset(rows)[n]
    ensures Count(rows, Wanted(userId, unreadOnly)) <= MaxPage ==>
              forall n :: multiset(r)[n] ==
                if n.userId == userId && (unreadOnly ==> !n.isRead) then multiset(rows)[n] else 0
    ensures Sorted(r, Ahead)
  {
    var sorted := Inbox(rows, userId, unreadOnly);
    var k := Min(MaxPage, |sorted|);
    var r := sorted[..k];
    assert forall n :: multiset(r)[n] <= multiset(sorted)[n] && (n in r ==> n in sorted)
                       && (k == |sorted| ==> multiset(r)[n] == multiset(sorted)[n]) by {
      TakeKeeps(sorted, k);
    }
    forall n ensures multiset(r)[n] <= multiset(rows)[n] {
      assert multiset(r)[n] <= multiset(sorted)[n];
    }
    TakeSorted(sorted, Ahead, k);
    r
  }

  /** Top-k: a matching notification that was cut off never ranks strictly ahead
      of one that was returned. */
  lemma OmittedRankNoHigher(rows: seq<Notification>, userId: int, unreadOnly: bool,
                            omitted: Notification, kept: Notification)
    requires omitted in rows && omitted.userId == userId && (unreadOnly ==> !omitted.isRead)
    requires omitted !in UserNotifications(rows, userId, unreadOnly)
    requires kept in UserNotifications(rows, userId, unreadOnly)
    ensures kept.priority >= omitted.priority
    ensures kept.priority == omitted.priority ==> kept.createdDate >= omitted.createdDate
  {
    var sorted := Inbox(rows, userId, unreadOnly);
    var k := Min(MaxPage, |sorted|);
    assert omitted in multiset(sorted);
    SortedTake(sorted, Ahead, k, omitted, kept);
  }

  /** `GetUnreadCountAsync`: how many of the user's notifications are unread; no cap. */
  function UnreadCount(rows: seq<Notification>, userId: int): (c: nat)
    ensures c == |Inbox(rows, userId, true)|
    ensures c <= |rows|
    ensures c == 0 <==> forall n :: n in rows ==> n.userId != userId || n.isRead
    ensures |UserNotifications(rows, userId, true)| == Min(MaxPage, c)
  {
    var c := Count(rows, Wanted(userId, true));
    var f := Filter(rows, Wanted(userId, true));
    assert c > 0 ==> f[0] in f;
    c
  }

  /** `CreateNotificationAsync`: the new table and the stored row. */
  function InsertNotification(t: NotificationTable, n: Notification, now: Timestamp): (NotificationTable, Notification) {
    var stored := n.(id := t.nextId, createdDate := now, isRead := false);
    (NotificationTable(t.rows + [stored], t.nextId + 1), stored)
  }

  /** Exactly one row is added, stamped `now` and unread whatever the caller set,
      under a fresh id; the content and recipient are the caller's. */
  lemma InsertNotificationAdds(t: NotificationTable, n: Notification, now: Timestamp)
    ensures var (t', s) := InsertNotification(t, n, now);
      && t'.rows == t.rows + [s]
      && s.createdDate == now && !s.isRead
      && s.userId == n.userId && s.title == n.title && s.message == n.message
      && s.priority == n.priority
      && (ValidTable(t) ==> ValidTable(t') && forall m :: m in t.rows ==> m.id != s.id)
  {
  }

  /** The recipient gains one unread notification; nobody else's count moves. */
  lemma InsertNotificationCounts(t: NotificationTable, n: Notification, now: Timestamp, u: int)
    ensures UnreadCount(InsertNotification(t, n, now).0.rows, u) ==
              UnreadCount(t.rows, u) + (if u == n.userId then 1 else 0)
  {
    var (t', s) := InsertNotification(t, n, now);
    CountAppend(t.rows, s, Wanted(u, true));
  }

  /** `MarkAsReadAsync`: the new table and whether the notification was found. */
  function MarkRead(t: NotificationTable, id: int): (NotificationTable, bool) {
    match FindIndex(t.rows, HasId(id))
    case None => (t, false)
    case Some(i) => (t.(rows := t.rows[i := t.rows[i].(isRead := true)]), true)
  }

  lemma MarkReadMiss(t: NotificationTable, id: int)
    requires NotificationById(t.rows, id).None?
    ensures MarkRead(t, id) == (t, false)
  {
  }

  /** A hit sets the found row's flag and changes nothing else. */
  lemma MarkReadHit(t: NotificationTable, id: int)
    requires NotificationById(t.rows, id).Some?
    ensures var (t', ok) := MarkRead(t, id);
      var prior := NotificationById(t.rows, id).value;
      && ok && t'.nextId == t.nextId
      && exists i :: 0 <= i < |t.rows| && t.rows[i] == prior
           && t'.rows == t.rows[i := prior.(isRead := true)]
  {
    var i := FindIndex(t.rows, HasId(id)).value;
    assert t.rows[i] == NotificationById(t.rows, id).value;
  }

  /** Marking twice is marking once: same answer, same table. */
  lemma {:induction false} MarkReadIdempotent(t: NotificationTable, id: int)
    ensures var (t1, ok1) := MarkRead(t, id);
      MarkRead(t1, id) == (t1, ok1)
  {
    var (t1, ok1) := MarkRead(t, id);
    if ok1 {
      var i := FindIndex(t.rows, HasId(id)).value;
      FindIndexSame(t.rows, t1.rows, HasId(id));
      assert t1.rows[i].(isRead := true) == t1.rows[i];
      assert t1.rows[i := t1.rows[i]] == t1.rows;
    }
  }

  /** Marking an unread notification read lowers its recipient's unread count by
      one; a miss or an already-read row changes no count. */
  lemma {:induction false} MarkReadCounts(t: NotificationTable, id: int, u: int)
    ensures var (t', ok) := MarkRead(t, id);
      UnreadCount(t'.rows, u) ==
        UnreadCount(t.rows, u) -
          (if ok && NotificationById(t.rows, id).value.userId == u && !NotificationById(t.rows, id).value.isRead
           then 1 else 0)
  {
    var (t', ok) := MarkRead(t, id);
    if ok {
      var i := FindIndex(t.rows, HasId(id)).value;
      assert t.rows[i] == NotificationById(t.rows, id).value;
      CountUpdate(t.rows, i, t.rows[i].(isRead := true), Wanted(u, true));
    }
  }

  lemma MarkReadKeepsInvariants(t: NotificationTable, id: int)
    requires ValidTable(t)
    ensures ValidTable(MarkRead(t, id).0)
  {
  }

  /** The `Notifications` table behind the service, updated in place by its two
      mutating operations. */
  class NotificationService {
    var rows: seq<Notification>
    var nextId: int

    function Table(): NotificationTable
      reads this
    {
      NotificationTable(rows, nextId)
    }

    ghost predicate Valid()
      reads this
    {
      ValidTable(Table())
    }

    constructor ()
      ensures Valid() && rows == []
    {
      rows := [];
      nextId := 1;
    }

    method CreateNotification(n: Notification, now: Timestamp) returns (stored: Notification)
      requires Valid()
      modifies this
      ensures Valid()
      ensures (Table(), stored) == InsertNotification(old(Table()), n, now)
    {
      InsertNotificationAdds(Table(), n, now);
      stored := n.(id := nextId, createdDate := now, isRead := false);
      rows := rows + [stored];
      nextId := nextId + 1;
    }

    method MarkAsRead(id: int) returns (ok: bool)
      requires Valid()
      modifies this
      ensures Valid()
      ensures (Table(), ok) == MarkRead(old(Table()), id)
    {
      MarkReadKeepsInvariants(Table(), id);
      var found := FindIndex(rows, HasId(id));
      if found.None? {
        return false;
      }
      var i := found.value;
      rows := rows[i := rows[i].(isRead := true)];
      ok := true;
    }
  }
}
