/**
 * The chat store's queries and the updates the chat routes apply: finding
 * the conversation of a pair, marking messages seen, the per-user thread
 * list, one conversation's history and the inbox.
 */
module Chat {
  import opened Wrappers
  import opened Schema
  import opened Http
  import opened Query
  import Text

  /** `c` is between `a` and `b`, stored in either order. */
  predicate SamePair(c: Conversation, a: int, b: int) {
    (c.user1Id == a && c.user2Id == b) || (c.user1Id == b && c.user2Id == a)
  }

  /** `u` is one of the two participants of `c`. */
  predicate Involves(c: Conversation, u: int) {
    c.user1Id == u || c.user2Id == u
  }

  /** At most one conversation exists per unordered pair of users. */
  ghost predicate OnePerPair(convs: seq<Conversation>) {
    forall i, j :: 0 <= i < j < |convs| ==> !SamePair(convs[j], convs[i].user1Id, convs[i].user2Id)
  }

  /** The `findFirst` whose `where` is `OR: [{user1Id: a, user2Id: b},
      {user1Id: b, user2Id: a}]`. */
  function FindConversation(convs: seq<Conversation>, a: int, b: int): (r: Option<Conversation>)
    ensures r.Some? ==> r.value in convs && SamePair(r.value, a, b)
    ensures r.None? <==> forall c :: c in convs ==> !SamePair(c, a, b)
  {
    if convs == [] then None
    else if SamePair(convs[0], a, b) then Some(convs[0])
    else FindConversation(convs[1..], a, b)
  }

  /** The lookup does not depend on the order the pair is given in. */
  lemma {:induction false} FindConversationSymmetric(convs: seq<Conversation>, a: int, b: int)
    ensures FindConversation(convs, a, b) == FindConversation(convs, b, a)
  {
    if convs != [] {
      FindConversationSymmetric(convs[1..], a, b);
    }
  }

  /** Once `c` has been appended for a pair that had no conversation, the
      lookup finds `c` from either side. */
  lemma {:induction false} FindAppended(convs: seq<Conversation>, c: Conversation)
    requires FindConversation(convs, c.user1Id, c.user2Id).None?
    ensures FindConversation(convs + [c], c.user1Id, c.user2Id) == Some(c)
    ensures FindConversation(convs + [c], c.user2Id, c.user1Id) == Some(c)
  {
    if convs != [] {
      assert (convs + [c])[1..] == convs[1..] + [c];
      FindAppended(convs[1..], c);
    }
    FindConversationSymmetric(convs + [c], c.user1Id, c.user2Id);
  }

  /** Appending a conversation for a pair that had none keeps one
      conversation per pair. */
  lemma AppendKeepsOnePerPair(convs: seq<Conversation>, c: Conversation)
    requires OnePerPair(convs)
    requires FindConversation(convs, c.user1Id, c.user2Id).None?
    ensures OnePerPair(convs + [c])
  {
    var s := convs + [c];
    forall i, j | 0 <= i < j < |s| ensures !SamePair(s[j], s[i].user1Id, s[i].user2Id) {
      if j == |convs| {
        assert s[i] in convs;
        assert !SamePair(s[i], c.user1Id, c.user2Id);
      }
    }
  }

  /** `conversation.update({ where: { id }, data: { updatedAt: now } })`. */
  function Touch(convs: seq<Conversation>, id: int, now: nat): (r: seq<Conversation>)
    ensures |r| == |convs|
    ensures forall i :: 0 <= i < |convs| ==>
              r[i] == if convs[i].id == id then convs[i].(updatedAt := now) else convs[i]
  {
    seq(|convs|, i requires 0 <= i < |convs| => if convs[i].id == id then convs[i].(updatedAt := now) else convs[i])
  }

  /** Touching a conversation changes no pair, so the lookup finds the same
      conversation, now bumped when it was the one touched. */
  lemma {:induction false} FindAfterTouch(convs: seq<Conversation>, id: int, now: nat, a: int, b: int)
    ensures FindConversation(Touch(convs, id, now), a, b).Some? == FindConversation(convs, a, b).Some?
    ensures FindConversation(convs, a, b).Some? ==>
              FindConversation(Touch(convs, id, now), a, b).value.id == FindConversation(convs, a, b).value.id
  {
    if convs != [] {
      assert Touch(convs, id, now)[1..] == Touch(convs[1..], id, now);
      FindAfterTouch(convs[1..], id, now, a, b);
    }
  }

  /** Touching keeps one conversation per pair. */
  lemma TouchKeepsOnePerPair(convs: seq<Conversation>, id: int, now: nat)
    requires OnePerPair(convs)
    ensures OnePerPair(Touch(convs, id, now))
  {
  }

  /** The participant of `c` who is not `u`: `user2` when `user1Id` is `u`,
      otherwise `user1`. */
  function OtherParticipant(c: Conversation, u: int): (other: int)
    ensures c.user1Id == u ==> other == c.user2Id
    ensures c.user1Id != u ==> other == c.user1Id
  {
    if c.user1Id == u then c.user2Id else c.user1Id
  }

  /** For a participant of a conversation between two distinct users, the
      other participant is the other one of the pair. */
  lemma OtherParticipantOfPair(c: Conversation, u: int)
    requires Involves(c, u) && c.user1Id != c.user2Id
    ensures OtherParticipant(c, u) != u
    ensures SamePair(c, u, OtherParticipant(c, u))
  {
  }

  /** `m` is in conversation `cid`, addressed to `uid` and not yet seen. */
  predicate IsUnreadFor(m: Message, cid: int, uid: int) {
    m.conversationId == cid && m.receiverId == uid && !m.seen
  }

  /** `message.count({ where: { conversationId, receiverId, seen: false } })`:
      the one definition of the unread count. */
  function UnreadCount(msgs: seq<Message>, cid: int, uid: int): (n: nat)
    ensures n <= |msgs|
    ensures n == 0 <==> forall m :: m in msgs ==> !IsUnreadFor(m, cid, uid)
  {
    var r := Filter(msgs, (m: Message) => IsUnreadFor(m, cid, uid));
    assert r != [] ==> r[0] in r;
    |r|
  }

  /** `m` is addressed to `uid` within conversation `cid`. */
  predicate AddressedIn(m: Message, cid: int, uid: int) {
    m.conversationId == cid && m.receiverId == uid
  }

  /** `message.updateMany({ where: { conversationId, receiverId, seen: false },
      data: { seen: true } })`: every message of the conversation addressed
      to `uid` ends up seen; nothing else about any message changes. */
  function MarkSeenIn(msgs: seq<Message>, cid: int, uid: int): (r: seq<Message>)
    ensures |r| == |msgs|
    ensures forall i :: 0 <= i < |msgs| ==> r[i].(seen := msgs[i].seen) == msgs[i]
    ensures forall i :: 0 <= i < |msgs| ==> r[i].seen == (msgs[i].seen || AddressedIn(msgs[i], cid, uid))
  {
    seq(|msgs|, i requires 0 <= i < |msgs| => if IsUnreadFor(msgs[i], cid, uid) then msgs[i].(seen := true) else msgs[i])
  }

  /** After marking, nothing in the conversation is unread for `uid`. */
  lemma MarkSeenClearsUnread(msgs: seq<Message>, cid: int, uid: int)
    ensures UnreadCount(MarkSeenIn(msgs, cid, uid), cid, uid) == 0
  {
    var r := MarkSeenIn(msgs, cid, uid);
    forall m | m in r ensures !IsUnreadFor(m, cid, uid) {
      var i :| 0 <= i < |r| && r[i] == m;
    }
  }

  /** Marking a second time changes nothing. */
  lemma MarkSeenIdempotent(msgs: seq<Message>, cid: int, uid: int)
    ensures MarkSeenIn(MarkSeenIn(msgs, cid, uid), cid, uid) == MarkSeenIn(msgs, cid, uid)
  {
    var r := MarkSeenIn(msgs, cid, uid);
    var rr := MarkSeenIn(r, cid, uid);
    forall i | 0 <= i < |r| ensures rr[i] == r[i] {
      assert rr[i].(seen := r[i].seen) == r[i];
    }
  }

  /** A message that was seen stays seen: the set of seen messages only
      grows. */
  lemma MarkSeenMonotone(msgs: seq<Message>, cid: int, uid: int, i: int)
    requires 0 <= i < |msgs| && msgs[i].seen
    ensures MarkSeenIn(msgs, cid, uid)[i] == msgs[i]
  {
    var r := MarkSeenIn(msgs, cid, uid);
    assert r[i].(seen := msgs[i].seen) == msgs[i];
  }

  /** Unread counts of any other conversation, or of anyone else, are left
      as they were. */
  lemma MarkSeenKeepsOtherCounts(msgs: seq<Message>, cid: int, uid: int, cid': int, uid': int)
    requires cid' != cid || uid' != uid
    ensures UnreadCount(MarkSeenIn(msgs, cid, uid), cid', uid') == UnreadCount(msgs, cid', uid')
  {
    var r := MarkSeenIn(msgs, cid, uid);
    var p := (m: Message) => IsUnreadFor(m, cid', uid');
    forall i | 0 <= i < |r| ensures p(r[i]) == p(msgs[i]) {
      assert r[i].(seen := msgs[i].seen) == msgs[i];
    }
    FilterPointwise(r, p, msgs, p);
  }

  /** Newest first, on `createdAt`. */
  function NewestFirst(): (Message, Message) -> bool {
    (a: Message, b: Message) => a.createdAt >= b.createdAt
  }

  /** Oldest first, on `createdAt`. */
  function OldestFirst(): (Message, Message) -> bool {
    (a: Message, b: Message) => a.createdAt <= b.createdAt
  }

  /** Most recently active first, on `updatedAt`. */
  function RecentFirst(): (Conversation, Conversation) -> bool {
    (a: Conversation, b: Conversation) => a.updatedAt >= b.updatedAt
  }

  /** The messages of conversation `cid`, in table order. */
  function MessagesOf(msgs: seq<Message>, cid: int): seq<Message> {
    Filter(msgs, (m: Message) => m.conversationId == cid)
  }

  /** `lm` is the latest message of conversation `cid`: absent exactly when
      the conversation has no message, otherwise one of its messages that
      no other is newer than. */
  ghost predicate IsLatestIn(msgs: seq<Message>, cid: int, lm: Option<Message>) {
    && (lm.None? <==> forall m :: m in msgs ==> m.conversationId != cid)
    && (lm.Some? ==> lm.value in msgs && lm.value.conversationId == cid
                     && forall m :: m in msgs && m.conversationId == cid ==> m.createdAt <= lm.value.createdAt)
  }

  lemma NewestFirstOrders()
    ensures TotalPreorder(NewestFirst())
  {
  }

  lemma OldestFirstOrders()
    ensures TotalPreorder(OldestFirst())
  {
  }

  lemma RecentFirstOrders()
    ensures TotalPreorder(RecentFirst())
  {
  }

  /** The thread's `messages: { orderBy: { createdAt: 'desc' }, take: 1 }`. */
  function LatestMessage(msgs: seq<Message>, cid: int): (lm: Option<Message>)
    ensures IsLatestIn(msgs, cid, lm)
  {
    NewestFirstOrders();
    var ordered := SortBy(MessagesOf(msgs, cid), NewestFirst());
    LatestOfOrdered(msgs, cid, ordered);
    if ordered == [] then None else Some(ordered[0])
  }

  lemma LatestOfOrdered(msgs: seq<Message>, cid: int, ordered: seq<Message>)
    requires SortedBy(ordered, NewestFirst())
    requires multiset(ordered) == multiset(MessagesOf(msgs, cid))
    ensures IsLatestIn(msgs, cid, if ordered == [] then None else Some(ordered[0]))
  {
    forall m | m in msgs && m.conversationId == cid ensures m in ordered {
      assert m in multiset(MessagesOf(msgs, cid));
    }
    if ordered != [] {
      assert ordered[0] in multiset(ordered);
      forall m | m in ordered ensures m.createdAt <= ordered[0].createdAt {
        var i :| 0 <= i < |ordered| && ordered[i] == m;
        if i > 0 { assert NewestFirst()(ordered[0], ordered[i]); }
      }
    }
  }

  /** One row of the thread list. */
  datatype Thread = Thread(conversationId: nat, otherUserId: int, lastMessage: Option<Message>, unreadCount: nat)

  /** The user's conversations, most recently active first: each
      conversation involving `uid` exactly as often as the table holds it,
      and no other. */
  function ThreadConversations(convs: seq<Conversation>, uid: int): (r: seq<Conversation>)
    ensures SortedBy(r, RecentFirst())
    ensures forall i, j :: 0 <= i < j < |r| ==> r[i].updatedAt >= r[j].updatedAt
    ensures forall c :: c in r <==> c in convs && Involves(c, uid)
    ensures multiset(r) == multiset(Filter(convs, (c: Conversation) => Involves(c, uid)))
  {
    RecentFirstOrders();
    var f := Filter(convs, (c: Conversation) => Involves(c, uid));
    var r := SortBy(f, RecentFirst());
    assert forall c :: c in r <==> c in multiset(r);
    assert forall c :: c in f <==> c in multiset(f);
    r
  }

  /** The view of conversation `c` from `uid`'s side. */
  function ThreadOf(c: Conversation, uid: int, msgs: seq<Message>): Thread {
    Thread(c.id, OtherParticipant(c, uid), LatestMessage(msgs, c.id), UnreadCount(msgs, c.id, uid))
  }

  /** GET /api/chat/threads?userId=: 400 unless the parameter reads as a
      number other than 0; otherwise one row per conversation of the user,
      most recently active first, carrying the other participant, the
      latest message and the user's unread count. */
  function Threads(userId: QueryParam, convs: seq<Conversation>, msgs: seq<Message>): (r: Reply<seq<Thread>>)
    ensures r.Error? <==> !IsIdParam(userId)
    ensures r.Error? ==> r.status == BAD_REQUEST
    ensures r.Ok? ==>
              var cs := ThreadConversations(convs, userId.n);
              && |r.body| == |cs|
              && forall i :: 0 <= i < |cs| ==>
                   && r.body[i].conversationId == cs[i].id
                   && r.body[i].otherUserId == OtherParticipant(cs[i], userId.n)
                   && IsLatestIn(msgs, cs[i].id, r.body[i].lastMessage)
                   && r.body[i].unreadCount == UnreadCount(msgs, cs[i].id, userId.n)
  {
    match NumberOf(userId)
    case None => Error(BAD_REQUEST)
    case Some(uid) =>
      if uid == 0 then Error(BAD_REQUEST)
      else
        var cs := ThreadConversations(convs, uid);
        Ok(seq(|cs|, i requires 0 <= i < |cs| => ThreadOf(cs[i], uid, msgs)))
  }

  /** Every thread in the list is a conversation the user takes part in,
      and every such conversation is listed. */
  lemma ThreadsAreTheUsers(userId: QueryParam, convs: seq<Conversation>, msgs: seq<Message>)
    requires Threads(userId, convs, msgs).Ok?
    ensures var ts := Threads(userId, convs, msgs).body;
            && (forall t :: t in ts ==> exists c :: c in convs && c.id == t.conversationId && Involves(c, userId.n))
            && (forall c :: c in convs && Involves(c, userId.n) ==> exists t :: t in ts && t.conversationId == c.id)
  {
    var ts := Threads(userId, convs, msgs).body;
    ThreadIdsMatch(ts, ThreadConversations(convs, userId.n), convs, userId.n);
  }

  /** Rows that carry, position by position, the ids of exactly the user's
      conversations name each of them and nothing else. */
  lemma ThreadIdsMatch(ts: seq<Thread>, cs: seq<Conversation>, convs: seq<Conversation>, uid: int)
    requires |ts| == |cs| && forall i :: 0 <= i < |cs| ==> ts[i].conversationId == cs[i].id
    requires forall c :: c in cs <==> c in convs && Involves(c, uid)
    ensures forall t :: t in ts ==> exists c :: c in convs && c.id == t.conversationId && Involves(c, uid)
    ensures forall c :: c in convs && Involves(c, uid) ==> exists t :: t in ts && t.conversationId == c.id
  {
    forall t | t in ts ensures exists c :: c in convs && c.id == t.conversationId && Involves(c, uid) {
      var i :| 0 <= i < |ts| && ts[i] == t;
      assert cs[i] in cs;
    }
    forall c | c in convs && Involves(c, uid) ensures exists t :: t in ts && t.conversationId == c.id {
      var i :| 0 <= i < |cs| && cs[i] == c;
      assert ts[i] in ts;
    }
  }

  /** After the user marks a conversation seen, its thread shows no unread
      message. */
  lemma ThreadUnreadAfterMarkSeen(uid: int, convs: seq<Conversation>, msgs: seq<Message>, cid: int)
    requires uid != 0
    ensures forall t :: t in Threads(Numeric(uid), convs, MarkSeenIn(msgs, cid, uid)).body && t.conversationId == cid
                        ==> t.unreadCount == 0
  {
    var ms := MarkSeenIn(msgs, cid, uid);
    var ts := Threads(Numeric(uid), convs, ms).body;
    forall t | t in ts && t.conversationId == cid ensures t.unreadCount == 0 {
      var i :| 0 <= i < |ts| && ts[i] == t;
      MarkSeenClearsUnread(msgs, cid, uid);
    }
  }

  /** No two conversations share an id (the primary key). */
  ghost predicate UniqueIds(convs: seq<Conversation>) {
    forall i, j :: 0 <= i < j < |convs| ==> convs[i].id != convs[j].id
  }

  /** `conversation.findUnique({ where: { id } })`. */
  function FindConversationById(convs: seq<Conversation>, id: int): (r: Option<Conversation>)
    ensures r.Some? ==> r.value in convs && r.value.id == id
    ensures r.None? ==> forall c :: c in convs ==> c.id != id
  {
    if convs == [] then None
    else if convs[0].id == id then Some(convs[0])
    else FindConversationById(convs[1..], id)
  }

  /** GET /api/chat/thread?conversationId=&userId=: 400 for a missing or
      non-numeric conversation id, or a non-numeric user id; with a user id,
      403 unless the conversation exists and the user takes part in it;
      otherwise exactly the conversation's messages, oldest first. */
  function History(conversationId: QueryParam, userId: QueryParam, convs: seq<Conversation>, msgs: seq<Message>)
    : (r: Reply<seq<Message>>)
    requires UniqueIds(convs)
    ensures !IsPresent(conversationId) || conversationId.NonNumeric? ==> r == Error(BAD_REQUEST)
    ensures conversationId.Numeric? && IsPresent(userId) && userId.NonNumeric? ==> r == Error(BAD_REQUEST)
    ensures conversationId.Numeric? && userId.Numeric? ==>
              (r == Error(FORBIDDEN) <==>
                 forall c :: c in convs && c.id == conversationId.n ==> !Involves(c, userId.n))
    ensures r.Error? ==> r.status == BAD_REQUEST || r.status == FORBIDDEN
    ensures conversationId.Numeric? && !IsPresent(userId) ==> r.Ok?
    ensures r.Ok? ==> conversationId.Numeric?
                      && SortedBy(r.body, OldestFirst())
                      && multiset(r.body) == multiset(MessagesOf(msgs, conversationId.n))
  {
    if !IsPresent(conversationId) || conversationId.NonNumeric? then Error(BAD_REQUEST)
    else
      var cid := conversationId.n;
      if IsPresent(userId) && userId.NonNumeric? then Error(BAD_REQUEST)
      else if IsPresent(userId) && (FindConversationById(convs, cid).None? || !Involves(FindConversationById(convs, cid).value, userId.n))
      then Error(FORBIDDEN)
      else
        OldestFirstOrders();
        Ok(SortBy(MessagesOf(msgs, cid), OldestFirst()))
  }

  /** The history is in non-decreasing `createdAt` order and holds every
      message of the conversation and nothing else. */
  lemma HistoryIsTheConversation(conversationId: QueryParam, userId: QueryParam, convs: seq<Conversation>, msgs: seq<Message>)
    requires UniqueIds(convs)
    requires History(conversationId, userId, convs, msgs).Ok?
    ensures var h := History(conversationId, userId, convs, msgs).body;
            && (forall i, j :: 0 <= i < j < |h| ==> h[i].createdAt <= h[j].createdAt)
            && (forall m :: m in h <==> m in msgs && m.conversationId == conversationId.n)
  {
    var h := History(conversationId, userId, convs, msgs).body;
    var f := MessagesOf(msgs, conversationId.n);
    assert forall m :: m in h <==> m in multiset(h);
    assert forall m :: m in f <==> m in multiset(f);
  }

  /** Received by `uid`. */
  function ReceivedBy(msgs: seq<Message>, uid: int): seq<Message> {
    Filter(msgs, (m: Message) => m.receiverId == uid)
  }

  /** GET /api/chat/inbox?userId=: the messages received by the user,
      newest first, keeping one per sender (`distinct: ['senderId']`). */
  function Inbox(uid: int, msgs: seq<Message>): (r: seq<Message>)
    ensures forall m :: m in r ==> m in msgs && m.receiverId == uid
    ensures forall i, j :: 0 <= i < j < |r| ==> r[i].senderId != r[j].senderId
    ensures forall i, j :: 0 <= i < j < |r| ==> r[i].createdAt >= r[j].createdAt
    ensures forall m :: m in msgs && m.receiverId == uid ==> exists k :: k in r && k.senderId == m.senderId
    ensures forall k, m :: k in r && m in msgs && m.receiverId == uid && m.senderId == k.senderId ==>
              m.createdAt <= k.createdAt
  {
    NewestFirstOrders();
    var ordered := SortBy(ReceivedBy(msgs, uid), NewestFirst());
    var key := (m: Message) => m.senderId;
    var r := DistinctBy(ordered, key);
    DistinctFromSorted(ordered, key, {}, NewestFirst());
    DistinctByFirstRanked(ordered, key, NewestFirst());
    InboxFacts(uid, msgs, ordered, r);
    r
  }

  lemma InboxFacts(uid: int, msgs: seq<Message>, ordered: seq<Message>, r: seq<Message>)
    requires multiset(ordered) == multiset(ReceivedBy(msgs, uid))
    requires forall m :: m in r ==> m in ordered
    requires forall m :: m in ordered ==> exists y :: y in r && y.senderId == m.senderId
    requires forall y, m :: y in r && m in ordered && m.senderId == y.senderId ==> NewestFirst()(y, m)
    ensures forall m :: m in r ==> m in msgs && m.receiverId == uid
    ensures forall m :: m in msgs && m.receiverId == uid ==> exists k :: k in r && k.senderId == m.senderId
    ensures forall k, m :: k in r && m in msgs && m.receiverId == uid && m.senderId == k.senderId ==>
              m.createdAt <= k.createdAt
  {
    forall m | m in r ensures m in msgs && m.receiverId == uid {
      assert m in multiset(ReceivedBy(msgs, uid));
    }
    forall m | m in msgs && m.receiverId == uid ensures m in ordered {
      assert m in multiset(ReceivedBy(msgs, uid));
    }
    forall k, m | k in r && m in msgs && m.receiverId == uid && m.senderId == k.senderId
      ensures m.createdAt <= k.createdAt
    {
      assert m in ordered;
      assert NewestFirst()(k, m);
    }
  }
}
