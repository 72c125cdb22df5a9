/** The notification inbox: messages addressed to one recipient each, read
    and deleted only by that recipient, listed newest first a page at a time.

    The table is kept in creation order, so "newest first" is the reverse of
    the table. The free-form `data` payload of a notification is not part of
    this model. */
module Notifications {
  import opened Common
  import opened Query
  import Calendar

  datatype Notification = Notification(
    id: nat,
    recipientId: nat,
    title: string,
    message: string,
    kind: string,
    isRead: bool,
    readAt: Option<Calendar.Instant>)

  datatype Error = NotFound(id: nat)

  /** What `findByUser` answers: one page of rows and the page arithmetic. */
  datatype Listing = Listing(data: seq<Notification>, total: nat, page: nat, limit: nat, totalPages: nat)

  /** The kind a new notification gets: the given one, or "system" when none
      (or an empty one) is given. */
  function KindOrSystem(kind: Option<string>): (r: string)
    ensures kind.Some? && kind.value != "" ==> r == kind.value
    ensures kind.None? || kind.value == "" ==> r == "system"
    ensures r != ""
  {
    if kind.Some? && kind.value != "" then kind.value else "system"
  }

  /** `Math.ceil(total / limit)` for a positive limit. */
  function CeilDiv(total: nat, limit: nat): (r: nat)
    requires limit > 0
    ensures total <= r * limit
    ensures r > 0 ==> (r - 1) * limit < total
  {
    (total + limit - 1) / limit
  }

  /** Row `k` of a listing (counted from 0) lies on page `k / limit + 1`,
      which is one of the `totalPages` pages and whose window holds it. */
  lemma PagesCover(total: nat, limit: nat, k: nat)
    requires limit > 0 && k < total
    ensures 1 <= k / limit + 1 <= CeilDiv(total, limit)
    ensures (k / limit) * limit <= k < (k / limit) * limit + limit
  {
  }

  /** The rows addressed to `userId` that match the optional read flag. */
  predicate Addressed(userId: nat, isRead: Option<bool>, n: Notification) {
    n.recipientId == userId && (isRead.None? || n.isRead == isRead.value)
  }

  predicate UnreadFor(userId: nat, n: Notification) {
    n.recipientId == userId && !n.isRead
  }

  /** `updateMany` of `markAllAsRead`: every unread row of `userId` becomes
      read at `now`; every other row stays as it was. */
  function ReadAll(rows: seq<Notification>, userId: nat, now: Calendar.Instant): (r: seq<Notification>)
    ensures |r| == |rows|
    ensures forall i :: 0 <= i < |rows| ==>
      r[i] == if UnreadFor(userId, rows[i]) then rows[i].(isRead := true, readAt := Some(now)) else rows[i]
  {
    if rows == [] then []
    else
      var head := if UnreadFor(userId, rows[0]) then rows[0].(isRead := true, readAt := Some(now)) else rows[0];
      [head] + ReadAll(rows[1..], userId, now)
  }

  /** After `markAllAsRead(u)` no row of `u` is unread. */
  lemma ReadAllLeavesNoUnread(rows: seq<Notification>, userId: nat, now: Calendar.Instant)
    ensures Count(ReadAll(rows, userId, now), n => UnreadFor(userId, n)) == 0
  {
  }

  /** Marking everything read twice is marking it read once (the second
      pass finds nothing left to change). */
  lemma ReadAllIdempotent(rows: seq<Notification>, userId: nat, now: Calendar.Instant, later: Calendar.Instant)
    ensures ReadAll(ReadAll(rows, userId, now), userId, later) == ReadAll(rows, userId, now)
  {
  }

  class Inbox {
    var notifications: seq<Notification>
    var nextId: nat

    ghost predicate Valid()
      reads this
    {
      && nextId > 0
      && (forall i :: 0 <= i < |notifications| ==> 0 < notifications[i].id < nextId)
      && (forall i, j :: 0 <= i < j < |notifications| ==> notifications[i].id != notifications[j].id)
    }

    constructor ()
      ensures Valid() && notifications == [] && nextId == 1
    {
      notifications := [];
      nextId := 1;
    }

    /** Position of notification `id` when it is addressed to `userId`
        (`findFirst({ where: { id, recipientId } })`). */
    function OwnedIndex(id: nat, userId: nat): Option<nat>
      reads this
    {
      FindFirst(notifications, (n: Notification) => n.id == id && n.recipientId == userId)
    }

    /** `create`: appends an unread notification under the next id. */
    method Create(recipientId: nat, title: string, message: string, kind: Option<string>) returns (n: Notification)
      requires Valid()
      modifies this
      ensures Valid() && nextId == old(nextId) + 1
      ensures n == Notification(old(nextId), recipientId, title, message, KindOrSystem(kind), false, None)
      ensures notifications == old(notifications) + [n]
    {
      n := Notification(nextId, recipientId, title, message, KindOrSystem(kind), false, None);
      notifications := notifications + [n];
      nextId := nextId + 1;
    }

    /** `getUnreadCount`: how many rows of `userId` are unread. */
    function UnreadCount(userId: nat): (r: nat)
      reads this
      ensures r <= |notifications|
      ensures r == Count(notifications, n => UnreadFor(userId, n))
      ensures r == 0 <==> forall i :: 0 <= i < |notifications| ==> !UnreadFor(userId, notifications[i])
    {
      var w := Where(notifications, n => UnreadFor(userId, n));
      assert w != [] ==> w[0] in notifications;
      |w|
    }

    /** `findByUser`: page `page` of `userId`'s rows (optionally only read
        or only unread ones), newest first, with the total and the page
        count. */
    function FindByUser(userId: nat, page: nat, limit: nat, isRead: Option<bool>): (r: Listing)
      reads this
      requires page >= 1 && limit >= 1
      ensures r.page == page && r.limit == limit && |r.data| <= limit
      ensures r.total == Count(notifications, n => Addressed(userId, isRead, n))
      ensures r.totalPages == CeilDiv(r.total, limit)
      ensures forall i :: 0 <= i < |r.data| ==> r.data[i] in notifications && Addressed(userId, isRead, r.data[i])
      ensures var skip := (page - 1) * limit;
        |r.data| == if skip >= r.total then 0 else if skip + limit <= r.total then limit else r.total - skip
      ensures r.data == NewestFirstWindow(Where(notifications, n => Addressed(userId, isRead, n)), (page - 1) * limit, limit)
    {
      var matching := Where(notifications, n => Addressed(userId, isRead, n));
      var data := NewestFirstWindow(matching, (page - 1) * limit, limit);
      Listing(data, |matching|, page, limit, CeilDiv(|matching|, limit))
    }

    /** `markAsRead`: NotFound (and no change) unless notification `id` is
        addressed to `userId`; otherwise that one row becomes read. */
    method MarkAsRead(id: nat, userId: nat, now: Calendar.Instant) returns (r: Result<Notification, Error>)
      requires Valid()
      modifies this
      ensures Valid() && nextId == old(nextId)
      ensures old(OwnedIndex(id, userId)).None? ==> r == Err(NotFound(id)) && notifications == old(notifications)
      ensures old(OwnedIndex(id, userId)).Some? ==>
        var i := old(OwnedIndex(id, userId)).value;
        && r == Ok(old(notifications)[i].(isRead := true, readAt := Some(now)))
        && notifications == old(notifications)[i := r.value]
    {
      var found := OwnedIndex(id, userId);
      if found.None? {
        return Err(NotFound(id));
      }
      var i := found.value;
      var n := notifications[i].(isRead := true, readAt := Some(now));
      notifications := notifications[i := n];
      r := Ok(n);
    }

    /** `markAllAsRead`: rewrites the table as `ReadAll`. */
    method MarkAllAsRead(userId: nat, now: Calendar.Instant)
      requires Valid()
      modifies this
      ensures Valid() && nextId == old(nextId)
      ensures notifications == ReadAll(old(notifications), userId, now)
      ensures UnreadCount(userId) == 0
    {
      notifications := ReadAll(notifications, userId, now);
      ReadAllLeavesNoUnread(old(notifications), userId, now);
    }

    /** `delete`: NotFound (and no change) unless notification `id` is
        addressed to `userId`; otherwise exactly that row goes. */
    method Delete(id: nat, userId: nat) returns (r: Result<(), Error>)
      requires Valid()
      modifies this
      ensures Valid() && nextId == old(nextId)
      ensures old(OwnedIndex(id, userId)).None? ==> r == Err(NotFound(id)) && notifications == old(notifications)
      ensures old(OwnedIndex(id, userId)).Some? ==>
        var i := old(OwnedIndex(id, userId)).value;
        r == Ok(()) && notifications == old(notifications)[..i] + old(notifications)[i + 1..]
    {
      var found := OwnedIndex(id, userId);
      if found.None? {
        return Err(NotFound(id));
      }
      var i := found.value;
      notifications := notifications[..i] + notifications[i + 1..];
      r := Ok(());
    }
  }

  /** Marking one notification read twice leaves it read, and the second
      call only moves its `readAt`. */
  method MarkTwice(inbox: Inbox, id: nat, userId: nat, now: Calendar.Instant, later: Calendar.Instant)
    returns (first: Result<Notification, Error>, second: Result<Notification, Error>)
    requires inbox.Valid()
    modifies inbox
    ensures first.Ok? <==> second.Ok?
    ensures first.Ok? ==> second.value == first.value.(readAt := Some(later)) && second.value.isRead
  {
    first := inbox.MarkAsRead(id, userId, now);
    second := inbox.MarkAsRead(id, userId, later);
  }
}
