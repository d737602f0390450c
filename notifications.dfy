/**
 * The notification list, the mark-as-read update and the unread counters.
 */
module Notifications {
  import opened Wrappers
  import opened Schema
  import opened Http
  import opened Query

  /** Newest first, on `createdAt`. */
  function NewestNotificationFirst(): (Notification, Notification) -> bool {
    (a: Notification, b: Notification) => a.createdAt >= b.createdAt
  }

  lemma NewestNotificationFirstOrders()
    ensures TotalPreorder(NewestNotificationFirst())
  {
  }

  /** `type && type !== 'all'`: the `type` parameter restricts the list
      only when it is non-empty and not 'all'. */
  predicate KindFilters(kind: Option<string>) {
    IsText(kind) && kind.value != "all"
  }

  /** The list's `where`: the user's notifications, of the asked kind when
      the parameter restricts it. */
  predicate Listed(n: Notification, uid: int, kind: Option<string>) {
    n.userId == uid && (KindFilters(kind) ==> n.kind == kind.value)
  }

  /** GET /api/notifications?type=: 401 without a cookie, 404 for an
      unknown user; otherwise exactly the user's notifications (of the asked
      kind, unless the kind is missing, empty or 'all'), newest first. */
  function ListNotifications(cookie: Option<string>, kind: Option<string>, users: seq<User>, notifs: seq<Notification>)
    : (r: Reply<seq<Notification>>)
    ensures r.Error? <==> !CurrentUser(users, cookie).SignedIn?
    ensures r.Error? ==> r.status == SessionStatus(CurrentUser(users, cookie))
    ensures r.Ok? ==>
              var uid := CurrentUser(users, cookie).user.id;
              && SortedBy(r.body, NewestNotificationFirst())
              && (forall n :: n in r.body <==> n in notifs && Listed(n, uid, kind))
              && multiset(r.body) == multiset(Filter(notifs, (n: Notification) => Listed(n, uid, kind)))
  {
    match CurrentUser(users, cookie)
    case SignedOut => Error(UNAUTHORIZED)
    case UnknownUser => Error(NOT_FOUND)
    case SignedIn(u) =>
      NewestNotificationFirstOrders();
      var f := Filter(notifs, (n: Notification) => Listed(n, u.id, kind));
      var r := SortBy(f, NewestNotificationFirst());
      assert forall n :: n in r <==> n in multiset(r);
      assert forall n :: n in f <==> n in multiset(f);
      Ok(r)
  }

  /** The PATCH's `where`: the user's own notifications whose id is in the
      list; with no list (`in: undefined`) the id condition is dropped. */
  predicate Targeted(n: Notification, uid: int, ids: Option<seq<int>>) {
    n.userId == uid && (ids.Some? ==> n.id in ids.value)
  }

  /** `updateMany({ where, data: { read: true } })` over the table: the
      targeted notifications become read, every field but `read` and every
      other notification stay as they were. */
  function MarkReadIn(notifs: seq<Notification>, uid: int, ids: Option<seq<int>>): (r: seq<Notification>)
    ensures |r| == |notifs|
    ensures forall i :: 0 <= i < |notifs| ==>
              && r[i] == notifs[i].(read := r[i].read)
              && (r[i].read <==> notifs[i].read || Targeted(notifs[i], uid, ids))
  {
    seq(|notifs|, i requires 0 <= i < |notifs| =>
      if Targeted(notifs[i], uid, ids) then notifs[i].(read := true) else notifs[i])
  }

  /** Only the caller's notifications can change, and only those listed. */
  lemma MarkReadOwnerOnly(notifs: seq<Notification>, uid: int, ids: Option<seq<int>>, i: int)
    requires 0 <= i < |notifs|
    requires MarkReadIn(notifs, uid, ids)[i] != notifs[i]
    ensures notifs[i].userId == uid && !notifs[i].read
    ensures ids.Some? ==> notifs[i].id in ids.value
  {
  }

  /** A second update with the same list changes nothing. */
  lemma MarkReadIdempotent(notifs: seq<Notification>, uid: int, ids: Option<seq<int>>)
    ensures MarkReadIn(MarkReadIn(notifs, uid, ids), uid, ids) == MarkReadIn(notifs, uid, ids)
  {
    var once := MarkReadIn(notifs, uid, ids);
    var twice := MarkReadIn(once, uid, ids);
    forall i | 0 <= i < |notifs| ensures twice[i] == once[i] {
      assert once[i].userId == notifs[i].userId && once[i].id == notifs[i].id;
    }
  }

  /** A read notification stays read. */
  lemma MarkReadNeverClears(notifs: seq<Notification>, uid: int, ids: Option<seq<int>>, i: int)
    requires 0 <= i < |notifs| && notifs[i].read
    ensures MarkReadIn(notifs, uid, ids)[i].read
  {
  }

  /** The three counters of the bell. */
  datatype Counters = Counters(all: nat, likes: nat, comments: nat)

  predicate UnreadOf(n: Notification, uid: int) {
    n.userId == uid && !n.read
  }

  predicate UnreadOfKind(n: Notification, uid: int, kind: string) {
    UnreadOf(n, uid) && n.kind == kind
  }

  /** GET /api/notifications/counts: 401 without a cookie, 404 for an
      unknown user; otherwise the user's unread notifications, all of them,
      those of kind 'like' and those of kind 'comment'. The last two count
      disjoint parts of the first, so together they are never more. */
  function UnreadCounts(cookie: Option<string>, users: seq<User>, notifs: seq<Notification>): (r: Reply<Counters>)
    ensures r.Error? <==> !CurrentUser(users, cookie).SignedIn?
    ensures r.Error? ==> r.status == SessionStatus(CurrentUser(users, cookie))
    ensures r.Ok? ==>
              var uid := CurrentUser(users, cookie).user.id;
              && r.body.all == Count(notifs, (n: Notification) => UnreadOf(n, uid))
              && r.body.likes == Count(notifs, (n: Notification) => UnreadOfKind(n, uid, "like"))
              && r.body.comments == Count(notifs, (n: Notification) => UnreadOfKind(n, uid, "comment"))
              && r.body.likes + r.body.comments <= r.body.all
              && r.body.all <= |notifs|
  {
    match CurrentUser(users, cookie)
    case SignedOut => Error(UNAUTHORIZED)
    case UnknownUser => Error(NOT_FOUND)
    case SignedIn(u) =>
      var all := (n: Notification) => UnreadOf(n, u.id);
      var likes := (n: Notification) => UnreadOfKind(n, u.id, "like");
      var comments := (n: Notification) => UnreadOfKind(n, u.id, "comment");
      CountDisjointBound(notifs, likes, comments, all);
      Ok(Counters(Count(notifs, all), Count(notifs, likes), Count(notifs, comments)))
  }

  /** After marking every notification of the user read (a PATCH with no
      list), all three counters are 0. */
  lemma CountsAfterMarkAll(cookie: Option<string>, users: seq<User>, notifs: seq<Notification>)
    requires CurrentUser(users, cookie).SignedIn?
    ensures var after := MarkReadIn(notifs, CurrentUser(users, cookie).user.id, None);
            UnreadCounts(cookie, users, after) == Ok(Counters(0, 0, 0))
  {
    var uid := CurrentUser(users, cookie).user.id;
    var after := MarkReadIn(notifs, uid, None);
    forall n | n in after ensures !UnreadOf(n, uid) {
      var i :| 0 <= i < |after| && after[i] == n;
    }
    FilterNone(after, (n: Notification) => UnreadOf(n, uid));
  }
}
