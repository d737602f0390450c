/**
 * The relational store the route handlers write to, one table per field,
 * and the handlers that change it. Each handler is one sequential step;
 * its status code is the one the route answers with. Ids come from one
 * auto-increment counter per table; timestamps are the clock reading
 * `now` the caller passes in.
 */
module Store {
  import opened Wrappers
  import opened Schema
  import opened Http
  import opened Query
  import Text
  import Chat
  import Posts
  import Notifications
  import Accounts
  import opened UserUtils

  /** Every table and counter of the store, as one value. */
  datatype Tables = Tables(
    users: seq<User>, profiles: seq<Profile>, conversations: seq<Conversation>, messages: seq<Message>,
    posts: seq<Post>, likes: seq<Like>, comments: seq<Comment>, notifications: seq<Notification>,
    nextUserId: nat, nextConversationId: nat, nextMessageId: nat, nextLikeId: nat, nextNotificationId: nat)

  /** Users: ids are keys below the counter, emails are unique. */
  predicate UsersOk(users: seq<User>, next: nat) {
    && (forall u :: u in users ==> u.id < next)
    && (forall i, j :: 0 <= i < j < |users| ==> users[i].id != users[j].id && users[i].email != users[j].email)
  }

  /** Profiles: one per user, each of a user the store holds (the
      `userid` column is a foreign key). */
  predicate ProfilesOk(profiles: seq<Profile>, users: seq<User>) {
    Accounts.OneProfilePerUser(profiles) && forall p :: p in profiles ==> HasUser(users, p.userId)
  }

  predicate HasUser(users: seq<User>, id: int) {
    exists u :: u in users && u.id == id
  }

  /** Conversations: keys below the counter, two distinct participants,
      one conversation per pair. */
  ghost predicate ConversationsOk(convs: seq<Conversation>, next: nat) {
    && Chat.UniqueIds(convs) && Chat.OnePerPair(convs)
    && (forall c :: c in convs ==> c.id < next && c.user1Id != c.user2Id)
  }

  predicate MessagesOk(msgs: seq<Message>, next: nat) {
    && (forall m :: m in msgs ==> m.id < next)
    && (forall i, j :: 0 <= i < j < |msgs| ==> msgs[i].id != msgs[j].id)
  }

  /** Likes: keys below the counter, one like per post and user. */
  predicate LikesOk(likes: seq<Like>, next: nat) {
    && Posts.UniqueLikeIds(likes) && Posts.OneLikePerPair(likes)
    && (forall l :: l in likes ==> l.id < next)
  }

  /** Post ids are the table's primary key. */
  predicate PostsOk(posts: seq<Post>) {
    forall i, j :: 0 <= i < j < |posts| ==> posts[i].id != posts[j].id
  }

  predicate NotificationsOk(ns: seq<Notification>, next: nat) {
    && (forall n :: n in ns ==> n.id < next)
    && (forall i, j :: 0 <= i < j < |ns| ==> ns[i].id != ns[j].id)
  }

  /** Appending a row whose id is the counter, then advancing the counter,
      keeps the messages' keys unique. */
  lemma AppendMessageOk(msgs: seq<Message>, next: nat, m: Message)
    requires MessagesOk(msgs, next) && m.id == next
    ensures MessagesOk(msgs + [m], next + 1)
  {
    var s := msgs + [m];
    forall i, j | 0 <= i < j < |s| ensures s[i].id != s[j].id {
      assert s[i] in msgs;
    }
  }

  lemma AppendNotificationOk(ns: seq<Notification>, next: nat, n: Notification)
    requires NotificationsOk(ns, next) && n.id == next
    ensures NotificationsOk(ns + [n], next + 1)
  {
    var s := ns + [n];
    forall i, j | 0 <= i < j < |s| ensures s[i].id != s[j].id {
      assert s[i] in ns;
    }
  }

  /** A new conversation for a pair that has none keeps the table valid. */
  lemma AppendConversationOk(convs: seq<Conversation>, next: nat, c: Conversation)
    requires ConversationsOk(convs, next) && c.id == next && c.user1Id != c.user2Id
    requires Chat.FindConversation(convs, c.user1Id, c.user2Id).None?
    ensures ConversationsOk(convs + [c], next + 1)
  {
    Chat.AppendKeepsOnePerPair(convs, c);
    var s := convs + [c];
    forall i, j | 0 <= i < j < |s| ensures s[i].id != s[j].id {
      assert s[i] in convs;
    }
  }

  /** Bumping `updatedAt` keeps the table valid. */
  lemma TouchOk(convs: seq<Conversation>, next: nat, id: int, now: nat)
    requires ConversationsOk(convs, next)
    ensures ConversationsOk(Chat.Touch(convs, id, now), next)
  {
    var t := Chat.Touch(convs, id, now);
    Chat.TouchKeepsOnePerPair(convs, id, now);
    forall c | c in t ensures c.id < next && c.user1Id != c.user2Id {
      var i :| 0 <= i < |t| && t[i] == c;
      assert convs[i] in convs;
    }
  }

  /** Looking a user up by email after a user with a new email is added. */
  lemma FindUserByEmailAppend(users: seq<User>, u: User)
    requires FindUserByEmail(users, u.email).None?
    ensures FindUserByEmail(users + [u], u.email) == Some(u)
  {
    if users != [] {
      assert (users + [u])[1..] == users[1..] + [u];
      FindUserByEmailAppend(users[1..], u);
    }
  }

  /** The users without a profile have distinct ids, each of a user the
      store holds. */
  lemma DistinctMissing(users: seq<User>, profiles: seq<Profile>, next: nat)
    requires UsersOk(users, next)
    ensures var missing := Accounts.UsersWithoutProfile(users, profiles);
            forall i, j :: 0 <= i < j < |missing| ==> missing[i].id != missing[j].id
  {
    FilterSorted(users, (u: User) => Accounts.FindProfile(profiles, u.id).None?, (a: User, b: User) => a.id != b.id);
  }

  /** One more step of the migration appends one more default profile. */
  lemma DefaultProfilesSnoc(profiles: seq<Profile>, missing: seq<User>, k: int)
    requires 0 <= k < |missing|
    ensures profiles + Accounts.DefaultProfiles(missing[..k + 1])
            == (profiles + Accounts.DefaultProfiles(missing[..k])) + [Accounts.DefaultProfile(missing[k].id)]
  {
    var d := Accounts.DefaultProfiles(missing[..k]);
    var p := Accounts.DefaultProfile(missing[k].id);
    assert Accounts.DefaultProfiles(missing[..k + 1]) == d + [p];
    ConcatAssoc(profiles, d, [p]);
  }

  /** The next profile the migration creates is of a user who has none yet. */
  lemma MigrationStepOk(profiles: seq<Profile>, missing: seq<User>, k: int, users: seq<User>)
    requires 0 <= k < |missing|
    requires forall u :: u in missing ==> u in users && Accounts.FindProfile(profiles, u.id).None?
    requires forall i, j :: 0 <= i < j < |missing| ==> missing[i].id != missing[j].id
    ensures HasUser(users, missing[k].id)
    ensures forall q :: q in profiles + Accounts.DefaultProfiles(missing[..k]) ==> q.userId != missing[k].id
  {
    assert missing[k] in missing;
    var made := Accounts.DefaultProfiles(missing[..k]);
    forall q | q in profiles + made ensures q.userId != missing[k].id {
      if q in made {
        var i :| 0 <= i < |made| && made[i] == q;
        assert q.userId == missing[i].id;
      }
    }
  }

  /** A new user with a fresh id and an email nobody has keeps the user
      table valid, and every profile keeps its user. */
  lemma AppendUserOk(users: seq<User>, next: nat, profiles: seq<Profile>, u: User)
    requires UsersOk(users, next) && ProfilesOk(profiles, users)
    requires u.id == next && FindUserByEmail(users, u.email).None?
    ensures UsersOk(users + [u], next + 1) && ProfilesOk(profiles, users + [u])
  {
    var s := users + [u];
    forall i, j | 0 <= i < j < |s| ensures s[i].id != s[j].id && s[i].email != s[j].email {
      assert s[i] in users;
    }
    forall p | p in profiles ensures HasUser(s, p.userId) {
      var w :| w in users && w.id == p.userId;
      assert w in s;
    }
  }

  /** A profile for a user who has none keeps the profile table valid. */
  lemma AppendProfileOk(profiles: seq<Profile>, users: seq<User>, p: Profile)
    requires ProfilesOk(profiles, users) && HasUser(users, p.userId)
    requires forall q :: q in profiles ==> q.userId != p.userId
    ensures ProfilesOk(profiles + [p], users)
  {
    var s := profiles + [p];
    forall i, j | 0 <= i < j < |s| ensures s[i].userId != s[j].userId {
      assert s[i] in profiles;
    }
  }

  /** The profile upsert for a user the store holds keeps the profile
      table valid. */
  lemma UpsertOk(profiles: seq<Profile>, users: seq<User>, uid: int, username: Option<string>,
                 profileImage: Option<string>, bio: Option<string>)
    requires ProfilesOk(profiles, users) && HasUser(users, uid)
    ensures ProfilesOk(Accounts.UpsertProfile(profiles, uid, username, profileImage, bio), users)
  {
    var r := Accounts.UpsertProfile(profiles, uid, username, profileImage, bio);
    Accounts.UpsertKeepsOneProfile(profiles, uid, username, profileImage, bio);
    forall q | q in r ensures HasUser(users, q.userId) {
      var i :| 0 <= i < |r| && r[i] == q;
      if i < |profiles| {
        assert profiles[i] in profiles && q.userId == profiles[i].userId;
      }
    }
  }

  /** A like for a pair not yet liked, with the counter as id, keeps the
      like table valid. */
  lemma AppendLikeOk(likes: seq<Like>, next: nat, l: Like)
    requires LikesOk(likes, next) && l.id == next && !Posts.LikedBy(likes, l.postId, l.userId)
    ensures LikesOk(likes + [l], next + 1)
  {
    Posts.LikeAddsPair(likes, l);
    var w := likes + [l];
    forall i, j | 0 <= i < j < |w| ensures w[i].id != w[j].id {
      assert w[i] in likes;
    }
  }

  /** The like table after a toggle by user `uid` on post `postId`: the
      pair's like deleted when there is one, a like with the counter as id
      created otherwise. */
  function Toggled(likes: seq<Like>, next: nat, postId: int, uid: int): seq<Like> {
    match Posts.FindLike(likes, postId, uid)
    case Some(l) => Posts.WithoutLike(likes, l.id)
    case None => likes + [Like(next, postId, uid)]
  }

  /** A toggle removes the pair when it was there and adds it when it was
      not, moves the post's count by one accordingly, and changes no other
      post's count. */
  lemma ToggleFacts(likes: seq<Like>, next: nat, postId: int, uid: int)
    requires LikesOk(likes, next)
    ensures var after := Toggled(likes, next, postId, uid);
            var liked := !Posts.LikedBy(likes, postId, uid);
            && Posts.LikeCount(after, postId) == Posts.LikeCount(likes, postId) + (if liked then 1 else -1)
            && Posts.LikePairs(after) == (if liked then Posts.LikePairs(likes) + {(postId, uid)}
                                          else Posts.LikePairs(likes) - {(postId, uid)})
            && (forall other :: other != postId ==> Posts.LikeCount(after, other) == Posts.LikeCount(likes, other))
  {
    var existing := Posts.FindLike(likes, postId, uid);
    if existing.Some? {
      var l := existing.value;
      Posts.UnlikeRemovesPair(likes, l);
      Posts.LikeCountWithout(likes, l, postId);
      forall other | other != postId
        ensures Posts.LikeCount(Posts.WithoutLike(likes, l.id), other) == Posts.LikeCount(likes, other)
      {
        Posts.LikeCountWithout(likes, l, other);
      }
    } else {
      var l := Like(next, postId, uid);
      Posts.LikeAddsPair(likes, l);
      Posts.LikeKeepsOtherCounts(likes, l);
    }
  }

  /** Two toggles by the same user on the same post leave the table's
      pairs as they were. */
  lemma ToggleTwiceRestoresPairs(likes: seq<Like>, n1: nat, n2: nat, postId: int, uid: int)
    requires LikesOk(likes, n1) && LikesOk(Toggled(likes, n1, postId, uid), n2)
    ensures Posts.LikePairs(Toggled(Toggled(likes, n1, postId, uid), n2, postId, uid)) == Posts.LikePairs(likes)
  {
    var once := Toggled(likes, n1, postId, uid);
    ToggleFlips(likes, n1, postId, uid);
    ToggleFacts(likes, n1, postId, uid);
    ToggleFacts(once, n2, postId, uid);
    var pair, before := (postId, uid), Posts.LikePairs(likes);
    if pair in before {
      assert (before - {pair}) + {pair} == before;
    } else {
      assert (before + {pair}) - {pair} == before;
    }
  }

  /** Two toggles by the same user on the same post leave every post's
      like count as it was. */
  lemma ToggleTwiceRestoresCounts(likes: seq<Like>, n1: nat, n2: nat, postId: int, uid: int)
    requires LikesOk(likes, n1) && LikesOk(Toggled(likes, n1, postId, uid), n2)
    ensures forall p :: Posts.LikeCount(Toggled(Toggled(likes, n1, postId, uid), n2, postId, uid), p)
                        == Posts.LikeCount(likes, p)
  {
    var once := Toggled(likes, n1, postId, uid);
    ToggleFlips(likes, n1, postId, uid);
    ToggleFacts(likes, n1, postId, uid);
    ToggleFacts(once, n2, postId, uid);
  }

  /** After a toggle the user likes the post exactly when they did not
      before. */
  lemma ToggleFlips(likes: seq<Like>, next: nat, postId: int, uid: int)
    requires LikesOk(likes, next)
    ensures Posts.LikedBy(Toggled(likes, next, postId, uid), postId, uid) <==> !Posts.LikedBy(likes, postId, uid)
    ensures (postId, uid) in Posts.LikePairs(likes) <==> Posts.LikedBy(likes, postId, uid)
  {
    ToggleFacts(likes, next, postId, uid);
    Posts.LikePairsIffLikedBy(likes, postId, uid);
    Posts.LikePairsIffLikedBy(Toggled(likes, next, postId, uid), postId, uid);
  }

  /** Deleting every like of a post keeps the like table valid. */
  lemma LikesAfterDeleteOk(likes: seq<Like>, next: nat, postId: int)
    requires LikesOk(likes, next)
    ensures LikesOk(Posts.LikesAfterDelete(likes, postId), next)
  {
    var keep := (l: Like) => l.postId != postId;
    FilterSorted(likes, keep, (a: Like, b: Like) => a.id != b.id);
    FilterSorted(likes, keep, (a: Like, b: Like) => a.postId != b.postId || a.userId != b.userId);
  }

  /** Deleting a post keeps the other post ids distinct. */
  lemma PostsAfterDeleteOk(posts: seq<Post>, postId: int)
    requires PostsOk(posts)
    ensures PostsOk(Posts.PostsAfterDelete(posts, postId))
  {
    FilterSorted(posts, (p: Post) => p.id != postId, (a: Post, b: Post) => a.id != b.id);
  }

  /** Marking notifications read changes no id. */
  lemma MarkReadOk(ns: seq<Notification>, next: nat, uid: int, ids: Option<seq<int>>)
    requires NotificationsOk(ns, next)
    ensures NotificationsOk(Notifications.MarkReadIn(ns, uid, ids), next)
  {
    var r := Notifications.MarkReadIn(ns, uid, ids);
    forall n | n in r ensures n.id < next {
      var i :| 0 <= i < |r| && r[i] == n;
      assert ns[i] in ns;
    }
  }

  /** The notification a new like sends: one, to the post's author, when
      the post exists, its author is not the liker and writing it does
      not fail; none otherwise. Nobody is notified of their own like. */
  function LikeNotice(post: Option<Post>, postId: int, liker: User, fails: bool, id: nat, now: nat)
    : (r: seq<Notification>)
    ensures |r| <= 1
    ensures r != [] <==> post.Some? && post.value.authorId != liker.id && !fails
    ensures forall n :: n in r ==>
              && n.userId == post.value.authorId && n.userId != liker.id
              && n.fromUserId == Some(liker.id) && n.postId == Some(postId)
              && n.kind == "like" && !n.read && n.id == id
  {
    if post.Some? && post.value.authorId != liker.id && !fails then
      [Notification(id, post.value.authorId, "like", Some(postId), Some(liker.id), liker.email + " liked your post", false, now)]
    else []
  }

  class Store {
    var users: seq<User>
    var profiles: seq<Profile>
    var conversations: seq<Conversation>
    var messages: seq<Message>
    var posts: seq<Post>
    var likes: seq<Like>
    var comments: seq<Comment>
    var notifications: seq<Notification>
    var nextUserId: nat
    var nextConversationId: nat
    var nextMessageId: nat
    var nextLikeId: nat
    var nextNotificationId: nat

    /** The whole store as one value. */
    function Snapshot(): Tables
      reads this
    {
      Tables(users, profiles, conversations, messages, posts, likes, comments, notifications,
                   nextUserId, nextConversationId, nextMessageId, nextLikeId, nextNotificationId)
    }

    ghost predicate Valid()
      reads this
    {
      && UsersOk(users, nextUserId)
      && ProfilesOk(profiles, users)
      && ConversationsOk(conversations, nextConversationId)
      && MessagesOk(messages, nextMessageId)
      && LikesOk(likes, nextLikeId)
      && PostsOk(posts)
      && NotificationsOk(notifications, nextNotificationId)
    }

    /** An empty store; every counter starts at 1, as auto-increment keys do. */
    constructor ()
      ensures Valid()
      ensures Snapshot() == Tables([], [], [], [], [], [], [], [], 1, 1, 1, 1, 1)
    {
      users, profiles, conversations, messages := [], [], [], [];
      posts, likes, comments, notifications := [], [], [], [];
      nextUserId, nextConversationId, nextMessageId, nextLikeId, nextNotificationId := 1, 1, 1, 1, 1;
    }

    // ------------------------------------------------------------- chat

    /** POST /api/chat/send. 400 when the sender or receiver is missing or
        0 or the content is missing or blank, and 400 when sender and
        receiver are the same; nothing is written then. Otherwise, with no
        conversation id given, the conversation of the pair (in either
        order) is used, or one is created with user1 the sender and user2
        the receiver; a given conversation id is used as it is, with no
        lookup and no participant check. One message with the trimmed
        content, unseen, is appended, and the conversation's `updatedAt`
        is set to `now`; when no conversation has that id the update fails
        (500) after the message has been stored. `sent` is the row written,
        not the response: on the 500 path the route answers no message. */
    method Send(conversationId: Option<int>, senderId: Option<int>, receiverId: Option<int>,
                content: Option<string>, now: nat)
      returns (status: int, sent: Option<Message>)
      requires Valid()
      modifies this
      ensures Valid()
      ensures status == BAD_REQUEST <==>
                !IsId(senderId) || !IsId(receiverId) || content.None? || Text.IsBlank(content.value)
                || senderId == receiverId
      ensures status == BAD_REQUEST ==> sent.None? && Snapshot() == old(Snapshot())
      ensures status != BAD_REQUEST ==>
                var s, r := senderId.value, receiverId.value;
                var found := Chat.FindConversation(old(conversations), s, r);
                var creates := !IsId(conversationId) && found.None?;
                var cid := if IsId(conversationId) then conversationId.value
                           else if found.Some? then found.value.id else old(nextConversationId);
                var before := if creates then old(conversations) + [Conversation(cid, s, r, now)]
                              else old(conversations);
                var m := Message(old(nextMessageId), cid, s, r, Text.Trim(content.value), now, false);
                && sent == Some(m)
                && status == (if Chat.FindConversationById(before, cid).Some? then OK else SERVER_ERROR)
                && Snapshot() == old(Snapshot()).(
                     conversations := if status == OK then Chat.Touch(before, cid, now) else before,
                     nextConversationId := if creates then old(nextConversationId) + 1 else old(nextConversationId),
                     messages := old(messages) + [m],
                     nextMessageId := old(nextMessageId) + 1)
    {
      if !IsId(senderId) || !IsId(receiverId) || content.None? || Text.IsBlank(content.value) {
        return BAD_REQUEST, None;
      }
      if senderId == receiverId {
        return BAD_REQUEST, None;
      }
      var s, r := senderId.value, receiverId.value;
      var cid := ResolveConversation(conversationId, s, r, now);
      var m := Message(nextMessageId, cid, s, r, Text.Trim(content.value), now, false);
      AppendMessage(m);
      sent := Some(m);
      status := TouchConversation(cid, now);
    }

    /** Stores a message whose id is the counter and advances the counter. */
    method AppendMessage(m: Message)
      requires Valid() && m.id == nextMessageId
      modifies this
      ensures Valid()
      ensures Snapshot() == old(Snapshot()).(messages := old(messages) + [m], nextMessageId := old(nextMessageId) + 1)
    {
      AppendMessageOk(messages, nextMessageId, m);
      messages := messages + [m];
      nextMessageId := nextMessageId + 1;
    }

    /** `prisma.conversation.update`: sets `updatedAt` of the conversation
        with that id, or fails with 500 when there is none. */
    method TouchConversation(cid: int, now: nat) returns (status: int)
      requires Valid()
      modifies this
      ensures Valid()
      ensures status == (if Chat.FindConversationById(old(conversations), cid).Some? then OK else SERVER_ERROR)
      ensures Snapshot() == old(Snapshot()).(
                conversations := if status == OK then Chat.Touch(old(conversations), cid, now) else old(conversations))
    {
      if Chat.FindConversationById(conversations, cid).None? {
        return SERVER_ERROR;
      }
      TouchOk(conversations, nextConversationId, cid, now);
      conversations := Chat.Touch(conversations, cid, now);
      status := OK;
    }

    /** The conversation a message goes into: the given id as it is, or
        the pair's conversation in either order, or a new one with user1
        the sender and user2 the receiver. */
    method ResolveConversation(conversationId: Option<int>, s: int, r: int, now: nat) returns (cid: int)
      requires Valid() && s != r
      modifies this
      ensures Valid()
      ensures var found := Chat.FindConversation(old(conversations), s, r);
              var creates := !IsId(conversationId) && found.None?;
              && cid == (if IsId(conversationId) then conversationId.value
                         else if found.Some? then found.value.id else old(nextConversationId))
              && Snapshot() == old(Snapshot()).(
                   conversations := if creates then old(conversations) + [Conversation(cid, s, r, now)]
                                    else old(conversations),
                   nextConversationId := if creates then old(nextConversationId) + 1 else old(nextConversationId))
    {
      if IsId(conversationId) {
        return conversationId.value;
      }
      var found := Chat.FindConversation(conversations, s, r);
      if found.Some? {
        return found.value.id;
      }
      var c := Conversation(nextConversationId, s, r, now);
      AppendConversationOk(conversations, nextConversationId, c);
      conversations := conversations + [c];
      nextConversationId := nextConversationId + 1;
      cid := c.id;
    }

    /** POST /api/chat/conversation. 400 when an id is missing or 0, or
        both are the same. The conversation of the pair, in either order,
        is answered with 200 and left as it is; when there is none, one is
        created with the ids in the order given and answered with 201. */
    method StartConversation(user1Id: Option<int>, user2Id: Option<int>, now: nat)
      returns (status: int, conversationId: Option<nat>)
      requires Valid()
      modifies this
      ensures Valid()
      ensures status == BAD_REQUEST <==> !IsId(user1Id) || !IsId(user2Id) || user1Id == user2Id
      ensures status == BAD_REQUEST ==> conversationId.None?
      ensures status != CREATED ==> Snapshot() == old(Snapshot())
      ensures status != BAD_REQUEST ==>
                var found := Chat.FindConversation(old(conversations), user1Id.value, user2Id.value);
                && (found.Some? ==> status == OK && conversationId == Some(found.value.id))
                && (found.None? ==>
                      && status == CREATED && conversationId == Some(old(nextConversationId))
                      && Snapshot() == old(Snapshot()).(
                           conversations := old(conversations)
                                            + [Conversation(old(nextConversationId), user1Id.value, user2Id.value, now)],
                           nextConversationId := old(nextConversationId) + 1))
    {
      if !IsId(user1Id) || !IsId(user2Id) {
        return BAD_REQUEST, None;
      }
      if user1Id == user2Id {
        return BAD_REQUEST, None;
      }
      var found := Chat.FindConversation(conversations, user1Id.value, user2Id.value);
      if found.Some? {
        return OK, Some(found.value.id);
      }
      var c := Conversation(nextConversationId, user1Id.value, user2Id.value, now);
      AppendConversationOk(conversations, nextConversationId, c);
      conversations := conversations + [c];
      nextConversationId := nextConversationId + 1;
      status, conversationId := CREATED, Some(c.id);
    }

    /** POST /api/chat/markSeen. 400 when either id is missing or 0;
        otherwise every message of the conversation addressed to the user
        is seen afterwards, and the answer is 200 even when none was
        unseen. */
    method MarkSeen(conversationId: Option<int>, userId: Option<int>) returns (status: int)
      requires Valid()
      modifies this
      ensures Valid()
      ensures status == (if IsId(conversationId) && IsId(userId) then OK else BAD_REQUEST)
      ensures status == BAD_REQUEST ==> Snapshot() == old(Snapshot())
      ensures status == OK ==>
                Snapshot() == old(Snapshot()).(messages := Chat.MarkSeenIn(old(messages), conversationId.value, userId.value))
    {
      if !IsId(conversationId) || !IsId(userId) {
        return BAD_REQUEST;
      }
      var after := Chat.MarkSeenIn(messages, conversationId.value, userId.value);
      assert forall m :: m in after ==> m.id < nextMessageId by {
        forall m | m in after ensures m.id < nextMessageId {
          var i :| 0 <= i < |after| && after[i] == m;
          assert after[i].(seen := messages[i].seen) == messages[i];
          assert messages[i] in messages;
        }
      }
      forall i, j | 0 <= i < j < |after| ensures after[i].id != after[j].id {
        assert after[i].(seen := messages[i].seen) == messages[i];
        assert after[j].(seen := messages[j].seen) == messages[j];
      }
      messages := after;
      status := OK;
    }

    // ------------------------------------------------------------- likes

    /** POST /api/post/like. 401 without a cookie and 404 for an unknown
        user; nothing is written then. Otherwise the user's like on the
        post is deleted when there is one (`liked` false); when there is
        none, one is created (`liked` true) and the author is sent the
        notice of `LikeNotice`, whose failure (`notificationFails`) does not
        fail the like. `likeCount` is the post's count afterwards. */
    method ToggleLike(cookie: Option<string>, postId: int, notificationFails: bool, now: nat)
      returns (status: int, liked: bool, likeCount: nat)
      requires Valid()
      modifies this
      ensures Valid()
      ensures users == old(users)
      ensures status == OK <==> CurrentUser(old(users), cookie).SignedIn?
      ensures status != OK ==>
                status == SessionStatus(CurrentUser(old(users), cookie)) && Snapshot() == old(Snapshot())
      ensures status == OK ==>
                var u := CurrentUser(old(users), cookie).user;
                && likes == Toggled(old(likes), old(nextLikeId), postId, u.id)
                && (liked <==> !Posts.LikedBy(old(likes), postId, u.id))
                && likeCount == Posts.LikeCount(likes, postId)
                && likeCount == Posts.LikeCount(old(likes), postId) + (if liked then 1 else -1)
                && Posts.LikePairs(likes) == (if liked then Posts.LikePairs(old(likes)) + {(postId, u.id)}
                                              else Posts.LikePairs(old(likes)) - {(postId, u.id)})
                && (forall other :: other != postId ==>
                      Posts.LikeCount(likes, other) == Posts.LikeCount(old(likes), other))
      ensures status == OK ==>
                var u := CurrentUser(old(users), cookie).user;
                var existing := Posts.FindLike(old(likes), postId, u.id);
                && (existing.Some? ==>
                      Snapshot() == old(Snapshot()).(likes := Posts.WithoutLike(old(likes), existing.value.id)))
                && (existing.None? ==>
                      var notice := LikeNotice(Posts.FindPost(old(posts), postId), postId, u, notificationFails,
                                               old(nextNotificationId), now);
                      Snapshot() == old(Snapshot()).(
                        likes := old(likes) + [Like(old(nextLikeId), postId, u.id)],
                        nextLikeId := old(nextLikeId) + 1,
                        notifications := old(notifications) + notice,
                        nextNotificationId := old(nextNotificationId) + |notice|))
    {
      var session := CurrentUser(users, cookie);
      if !session.SignedIn? {
        return SessionStatus(session), false, 0;
      }
      var u := session.user;
      var existing := Posts.FindLike(likes, postId, u.id);
      if existing.Some? {
        RemoveLike(existing.value);
        liked := false;
      } else {
        AddLike(Like(nextLikeId, postId, u.id));
        var notice := LikeNotice(Posts.FindPost(posts, postId), postId, u, notificationFails, nextNotificationId, now);
        if notice != [] {
          AddNotification(notice[0]);
          assert [notice[0]] == notice;
        }
        liked := true;
      }
      ToggleFacts(old(likes), old(nextLikeId), postId, u.id);
      assert likes == Toggled(old(likes), old(nextLikeId), postId, u.id);
      status, likeCount := OK, Posts.LikeCount(likes, postId);
    }

    /** `prisma.like.delete({ where: { id } })` of a like the table holds. */
    method RemoveLike(l: Like)
      requires Valid() && l in likes
      modifies this
      ensures Valid()
      ensures Snapshot() == old(Snapshot()).(likes := Posts.WithoutLike(old(likes), l.id))
    {
      Posts.UnlikeRemovesPair(likes, l);
      likes := Posts.WithoutLike(likes, l.id);
    }

    /** `prisma.like.create` of a like for a pair not yet liked. */
    method AddLike(l: Like)
      requires Valid() && l.id == nextLikeId && !Posts.LikedBy(likes, l.postId, l.userId)
      modifies this
      ensures Valid()
      ensures Snapshot() == old(Snapshot()).(likes := old(likes) + [l], nextLikeId := old(nextLikeId) + 1)
    {
      AppendLikeOk(likes, nextLikeId, l);
      likes := likes + [l];
      nextLikeId := nextLikeId + 1;
    }

    /** `prisma.notification.create` with the counter as id. */
    method AddNotification(n: Notification)
      requires Valid() && n.id == nextNotificationId
      modifies this
      ensures Valid()
      ensures Snapshot() == old(Snapshot()).(notifications := old(notifications) + [n],
                                             nextNotificationId := old(nextNotificationId) + 1)
    {
      AppendNotificationOk(notifications, nextNotificationId, n);
      notifications := notifications + [n];
      nextNotificationId := nextNotificationId + 1;
    }

    // ----------------------------------------------------- notifications

    /** PATCH /api/notifications. 401 without a cookie and 404 for an
        unknown user, nothing written; otherwise the caller's notifications
        whose id is listed (all of them when no list is sent) are read
        afterwards and nothing else changes. */
    method MarkNotificationsRead(cookie: Option<string>, ids: Option<seq<int>>) returns (status: int)
      requires Valid()
      modifies this
      ensures Valid()
      ensures status == OK <==> CurrentUser(old(users), cookie).SignedIn?
      ensures status != OK ==>
                status == SessionStatus(CurrentUser(old(users), cookie)) && Snapshot() == old(Snapshot())
      ensures status == OK ==>
                Snapshot() == old(Snapshot()).(notifications := Notifications.MarkReadIn(
                  old(notifications), CurrentUser(old(users), cookie).user.id, ids))
    {
      var session := CurrentUser(users, cookie);
      if !session.SignedIn? {
        return SessionStatus(session);
      }
      MarkReadOk(notifications, nextNotificationId, session.user.id, ids);
      notifications := Notifications.MarkReadIn(notifications, session.user.id, ids);
      status := OK;
    }

    // ------------------------------------------------------------ delete

    /** DELETE /api/post/delete. 401 without a cookie, 404 for an unknown
        user or post, 403 when the user is not the author; nothing is
        deleted then. Otherwise one transaction deletes the post's
        comments, its likes and the post, and nothing else. */
    method DeletePost(cookie: Option<string>, postId: int) returns (status: int)
      requires Valid()
      modifies this
      ensures Valid()
      ensures var session := CurrentUser(old(users), cookie);
              var post := Posts.FindPost(old(posts), postId);
              status == if !session.SignedIn? then SessionStatus(session)
                        else if post.None? then NOT_FOUND
                        else if post.value.authorId != session.user.id then FORBIDDEN
                        else OK
      ensures status != OK ==> Snapshot() == old(Snapshot())
      ensures status == OK ==>
                && Snapshot() == old(Snapshot()).(
                     comments := Posts.CommentsAfterDelete(old(comments), postId),
                     likes := Posts.LikesAfterDelete(old(likes), postId),
                     posts := Posts.PostsAfterDelete(old(posts), postId))
                && (forall p :: p in posts ==> p.id != postId)
                && (forall c :: c in comments ==> c.postId != postId)
                && (forall l :: l in likes ==> l.postId != postId)
    {
      var session := CurrentUser(users, cookie);
      if !session.SignedIn? {
        return SessionStatus(session);
      }
      var post := Posts.FindPost(posts, postId);
      if post.None? {
        return NOT_FOUND;
      }
      if post.value.authorId != session.user.id {
        return FORBIDDEN;
      }
      Cascade(postId);
      status := OK;
    }

    /** The transaction of the delete: the post's comments, its likes and
        the post itself go together. */
    method Cascade(postId: int)
      requires Valid()
      modifies this
      ensures Valid()
      ensures Snapshot() == old(Snapshot()).(
                comments := Posts.CommentsAfterDelete(old(comments), postId),
                likes := Posts.LikesAfterDelete(old(likes), postId),
                posts := Posts.PostsAfterDelete(old(posts), postId))
    {
      var keptLikes := Posts.LikesAfterDelete(likes, postId);
      LikesAfterDeleteOk(likes, nextLikeId, postId);
      assert LikesOk(keptLikes, nextLikeId);
      likes := keptLikes;
      comments := Posts.CommentsAfterDelete(comments, postId);
      PostsAfterDeleteOk(posts, postId);
      posts := Posts.PostsAfterDelete(posts, postId);
    }

    // ----------------------------------------------------------- accounts

    /** GET /api/users/profile?userId=. 400 when the parameter is missing
        or empty, 500 when it does not read as a number (the lookup
        fails), 404 when no user has that id; nothing is written then.
        Otherwise the user is answered with its profile, a default one
        being created first when the user has none. */
    method GetProfile(userId: QueryParam) returns (status: int, result: Option<UserWithProfile>)
      requires Valid()
      modifies this
      ensures Valid()
      ensures status == if !IsPresent(userId) then BAD_REQUEST
                        else if userId.NonNumeric? then SERVER_ERROR
                        else if Accounts.FindUserById(old(users), userId.n).None? then NOT_FOUND
                        else OK
      ensures status != OK ==> result.None? && Snapshot() == old(Snapshot())
      ensures status == OK ==>
                var u := Accounts.FindUserById(old(users), userId.n).value;
                var had := Accounts.FindProfile(old(profiles), u.id);
                && result == Some(UserWithProfile(u, Some(if had.Some? then had.value else Accounts.DefaultProfile(u.id))))
                && Accounts.FindProfile(profiles, u.id) == result.value.profile
                && Snapshot() == old(Snapshot()).(
                     profiles := old(profiles) + if had.None? then [Accounts.DefaultProfile(u.id)] else [])
    {
      if !IsPresent(userId) {
        return BAD_REQUEST, None;
      }
      if userId.NonNumeric? {
        return SERVER_ERROR, None;
      }
      var found := Accounts.FindUserById(users, userId.n);
      if found.None? {
        return NOT_FOUND, None;
      }
      var u := found.value;
      var had := Accounts.FindProfile(profiles, u.id);
      if had.Some? {
        assert profiles + [] == profiles;
        return OK, Some(UserWithProfile(u, had));
      }
      var p := Accounts.DefaultProfile(u.id);
      assert HasUser(users, u.id);
      AddProfile(p);
      status, result := OK, Some(UserWithProfile(u, Some(p)));
    }

    /** PUT /api/users/profile. 400 when the user id is missing or 0.
        Otherwise the upsert: the user's profile takes every truthy value
        given, or a profile with the values as given is created; creating
        one for an id no user has breaks the foreign key (500, nothing
        written). The answer is the user with its profile afterwards. */
    method PutProfile(userId: Option<int>, username: Option<string>, profileImage: Option<string>,
                      bio: Option<string>)
      returns (status: int, result: Option<UserWithProfile>)
      requires Valid()
      modifies this
      ensures Valid()
      ensures status == if !IsId(userId) then BAD_REQUEST
                        else if Accounts.FindUserById(old(users), userId.value).None? then SERVER_ERROR
                        else OK
      ensures status != OK ==> result.None? && Snapshot() == old(Snapshot())
      ensures status == OK ==>
                var u := Accounts.FindUserById(old(users), userId.value).value;
                var had := Accounts.FindProfile(old(profiles), u.id);
                && result == Some(UserWithProfile(u, Some(
                     if had.Some? then Accounts.UpdateProfile(had.value, username, profileImage, bio)
                     else Profile(u.id, username, profileImage, bio))))
                && Accounts.FindProfile(profiles, u.id) == result.value.profile
                && (forall v :: v != u.id ==> Accounts.FindProfile(profiles, v) == Accounts.FindProfile(old(profiles), v))
                && Snapshot() == old(Snapshot()).(
                     profiles := Accounts.UpsertProfile(old(profiles), u.id, username, profileImage, bio))
    {
      if !IsId(userId) {
        return BAD_REQUEST, None;
      }
      var found := Accounts.FindUserById(users, userId.value);
      if found.None? {
        return SERVER_ERROR, None;
      }
      var u := found.value;
      UpsertOk(profiles, users, u.id, username, profileImage, bio);
      Accounts.UpsertKeepsOneProfile(profiles, u.id, username, profileImage, bio);
      profiles := Accounts.UpsertProfile(profiles, u.id, username, profileImage, bio);
      status, result := OK, Some(UserWithProfile(u, Accounts.FindProfile(profiles, u.id)));
    }

    /** `register`: 409 when the email is taken, checked first; 400 when
        the confirmation differs from the password; nothing is written
        then. Otherwise one transaction creates the user, storing
        `hash(password)` (bcrypt's hash) and never the password itself,
        and its default profile. */
    method Register(email: string, password: string, confirmPassword: string, hash: string -> string)
      returns (status: int, result: Option<UserWithProfile>)
      requires Valid()
      modifies this
      ensures Valid()
      ensures status == if FindUserByEmail(old(users), email).Some? then CONFLICT
                        else if confirmPassword != password then BAD_REQUEST
                        else OK
      ensures status != OK ==> result.None? && Snapshot() == old(Snapshot())
      ensures status == OK ==>
                var u := User(old(nextUserId), email, hash(password));
                && result == Some(UserWithProfile(u, Some(Accounts.DefaultProfile(u.id))))
                && FindUserByEmail(users, email) == Some(u)
                && Accounts.FindProfile(profiles, u.id) == Some(Accounts.DefaultProfile(u.id))
                && Snapshot() == old(Snapshot()).(
                     users := old(users) + [u], profiles := old(profiles) + [Accounts.DefaultProfile(u.id)],
                     nextUserId := old(nextUserId) + 1)
    {
      if FindUserByEmail(users, email).Some? {
        return CONFLICT, None;
      }
      if confirmPassword != password {
        return BAD_REQUEST, None;
      }
      var u := User(nextUserId, email, hash(password));
      AddUser(u);
      var p := Accounts.DefaultProfile(u.id);
      AddProfile(p);
      status, result := OK, Some(UserWithProfile(u, Some(p)));
    }

    /** `tx.user.create` with the counter as id; nobody has a profile under
        the new id yet. */
    method AddUser(u: User)
      requires Valid() && u.id == nextUserId && FindUserByEmail(users, u.email).None?
      modifies this
      ensures Valid()
      ensures Snapshot() == old(Snapshot()).(users := old(users) + [u], nextUserId := old(nextUserId) + 1)
      ensures FindUserByEmail(users, u.email) == Some(u) && HasUser(users, u.id)
      ensures forall q :: q in profiles ==> q.userId != u.id
    {
      AppendUserOk(users, nextUserId, profiles, u);
      FindUserByEmailAppend(users, u);
      forall q | q in profiles ensures q.userId != u.id {
        var w :| w in users && w.id == q.userId;
      }
      users := users + [u];
      nextUserId := nextUserId + 1;
      assert u in users;
    }

    /** `userProfile.create` for a user the store holds who has none. */
    method AddProfile(p: Profile)
      requires Valid() && HasUser(users, p.userId)
      requires forall q :: q in profiles ==> q.userId != p.userId
      modifies this
      ensures Valid()
      ensures Snapshot() == old(Snapshot()).(profiles := old(profiles) + [p])
      ensures Accounts.FindProfile(profiles, p.userId) == Some(p)
    {
      AppendProfileOk(profiles, users, p);
      Accounts.FindProfileAppend(profiles, p, p.userId);
      profiles := profiles + [p];
    }

    /** POST /api/users/migrate-profiles: a default profile for every user
        who has none, in table order; `updated` is how many were created.
        Afterwards every user has a profile. */
    method MigrateProfiles() returns (updated: nat)
      requires Valid()
      modifies this
      ensures Valid()
      ensures var missing := Accounts.UsersWithoutProfile(old(users), old(profiles));
              && updated == |missing|
              && Snapshot() == old(Snapshot()).(profiles := old(profiles) + Accounts.DefaultProfiles(missing))
      ensures forall u :: u in users ==> Accounts.FindProfile(profiles, u.id).Some?
    {
      var missing := Accounts.UsersWithoutProfile(users, profiles);
      DistinctMissing(users, profiles, nextUserId);
      Accounts.MigrationCoversEveryone(users, profiles);
      CreateDefaultProfiles(missing);
      updated := |missing|;
    }

    /** The creates of the migration, one user after the other. */
    method CreateDefaultProfiles(missing: seq<User>)
      requires Valid()
      requires forall u :: u in missing ==> u in users && Accounts.FindProfile(profiles, u.id).None?
      requires forall i, j :: 0 <= i < j < |missing| ==> missing[i].id != missing[j].id
      modifies this
      ensures Valid()
      ensures Snapshot() == old(Snapshot()).(profiles := old(profiles) + Accounts.DefaultProfiles(missing))
    {
      var k := 0;
      while k < |missing|
        invariant 0 <= k <= |missing|
        invariant Valid()
        invariant Snapshot() == old(Snapshot()).(profiles := old(profiles) + Accounts.DefaultProfiles(missing[..k]))
      {
        var p := Accounts.DefaultProfile(missing[k].id);
        MigrationStepOk(old(profiles), missing, k, users);
        DefaultProfilesSnoc(old(profiles), missing, k);
        AddProfile(p);
        k := k + 1;
      }
      assert missing[..k] == missing;
    }
  }
}
