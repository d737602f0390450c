/**
 * Sequences of requests against one store, and what the routes promise
 * about them together: a reply lands in the conversation the first
 * message used, a like toggled twice leaves the table as it was, reading
 * a profile twice creates at most one, the migration run twice creates
 * nothing the second time, a user who registers can log in, and marking
 * read or seen twice is marking once.
 */
module Scenarios {
  import opened Wrappers
  import opened Schema
  import opened Http
  import opened UserUtils
  import Text
  import Chat
  import Posts
  import Notifications
  import Accounts
  import opened Store

  /** A message from `a` to `b` and the reply from `b` to `a`, both sent
      without a conversation id, go into the same conversation, and at
      most one conversation is created. */
  method SendThenReply(st: Store, a: int, b: int, first: string, second: string, t1: nat, t2: nat)
    returns (m1: Message, m2: Message)
    requires st.Valid() && a != 0 && b != 0 && a != b
    requires !Text.IsBlank(first) && !Text.IsBlank(second)
    modifies st
    ensures st.Valid()
    ensures m1.conversationId == m2.conversationId
    ensures m1.senderId == a && m1.receiverId == b && m2.senderId == b && m2.receiverId == a
    ensures |st.conversations| <= |old(st.conversations)| + 1
  {
    var before := st.conversations;
    var found := Chat.FindConversation(before, a, b);
    var status1, sent1 := st.Send(None, Some(a), Some(b), Some(first), t1);
    m1 := sent1.value;
    var cid := m1.conversationId;
    var made := if found.None? then before + [Conversation(cid, a, b, t1)] else before;
    if found.None? {
      Chat.FindAppended(before, Conversation(cid, a, b, t1));
    }
    assert Chat.FindConversation(made, a, b).Some? && Chat.FindConversation(made, a, b).value.id == cid;
    assert status1 == OK by {
      assert Chat.FindConversation(made, a, b).value in made;
    }
    Chat.FindAfterTouch(made, cid, t1, a, b);
    Chat.FindConversationSymmetric(st.conversations, b, a);
    var status2, sent2 := st.Send(None, Some(b), Some(a), Some(second), t2);
    m2 := sent2.value;
  }

  /** Starting a conversation for (a, b) and then for (b, a) answers the
      same conversation id, and creates at most one conversation. */
  method StartBothWays(st: Store, a: int, b: int, t1: nat, t2: nat) returns (id1: nat, id2: nat)
    requires st.Valid() && a != 0 && b != 0 && a != b
    modifies st
    ensures st.Valid()
    ensures id1 == id2
    ensures |st.conversations| <= |old(st.conversations)| + 1
  {
    var before := st.conversations;
    var status1, c1 := st.StartConversation(Some(a), Some(b), t1);
    if Chat.FindConversation(before, a, b).None? {
      Chat.FindAppended(before, Conversation(c1.value, a, b, t1));
    }
    var status2, c2 := st.StartConversation(Some(b), Some(a), t2);
    Chat.FindConversationSymmetric(old(st.conversations), a, b);
    id1, id2 := c1.value, c2.value;
  }

  /** Marking a conversation seen twice is marking it once, and afterwards
      the user has no unread message in it. */
  method MarkSeenTwice(st: Store, cid: int, uid: int)
    requires st.Valid() && cid != 0 && uid != 0
    modifies st
    ensures st.Valid()
    ensures st.messages == Chat.MarkSeenIn(old(st.messages), cid, uid)
    ensures Chat.UnreadCount(st.messages, cid, uid) == 0
  {
    var s1 := st.MarkSeen(Some(cid), Some(uid));
    var s2 := st.MarkSeen(Some(cid), Some(uid));
    Chat.MarkSeenIdempotent(old(st.messages), cid, uid);
    Chat.MarkSeenClearsUnread(old(st.messages), cid, uid);
  }

  /** Toggling the like on a post twice restores the table's pairs and
      the post's count. */
  method ToggleTwice(st: Store, cookie: Option<string>, postId: int, fails: bool, now: nat)
    returns (first: bool, second: bool)
    requires st.Valid() && CurrentUser(st.users, cookie).SignedIn?
    modifies st
    ensures st.Valid()
    ensures second == !first
    ensures Posts.LikePairs(st.likes) == Posts.LikePairs(old(st.likes))
    ensures forall p :: Posts.LikeCount(st.likes, p) == Posts.LikeCount(old(st.likes), p)
  {
    var uid := CurrentUser(st.users, cookie).user.id;
    var status1, count1;
    status1, first, count1 := st.ToggleLike(cookie, postId, fails, now);
    var n2 := st.nextLikeId;
    Posts.LikePairsIffLikedBy(st.likes, postId, uid);
    var status2, count2;
    status2, second, count2 := st.ToggleLike(cookie, postId, fails, now);
    ToggleTwiceRestoresPairs(old(st.likes), old(st.nextLikeId), n2, postId, uid);
    ToggleTwiceRestoresCounts(old(st.likes), old(st.nextLikeId), n2, postId, uid);
  }

  /** After the user marks every notification read, all three unread
      counts are zero. */
  method MarkAllThenCount(st: Store, cookie: Option<string>) returns (counts: Reply<Notifications.Counters>)
    requires st.Valid() && CurrentUser(st.users, cookie).SignedIn?
    modifies st
    ensures st.Valid()
    ensures counts == Ok(Notifications.Counters(0, 0, 0))
  {
    Notifications.CountsAfterMarkAll(cookie, st.users, st.notifications);
    var status := st.MarkNotificationsRead(cookie, None);
    counts := Notifications.UnreadCounts(cookie, st.users, st.notifications);
  }

  /** Reading a profile twice answers the same both times; the second
      read writes nothing, so at most one profile is created. */
  method GetProfileTwice(st: Store, userId: QueryParam)
    returns (first: Option<UserWithProfile>, second: Option<UserWithProfile>)
    requires st.Valid()
    modifies st
    ensures st.Valid()
    ensures first == second
    ensures |st.profiles| <= |old(st.profiles)| + 1
  {
    var status1, status2;
    status1, first := st.GetProfile(userId);
    status2, second := st.GetProfile(userId);
  }

  /** Running the migration twice does what running it once does: the
      second run finds nobody without a profile. */
  method MigrateTwice(st: Store) returns (first: nat, second: nat)
    requires st.Valid()
    modifies st
    ensures st.Valid()
    ensures second == 0
    ensures first == |Accounts.UsersWithoutProfile(old(st.users), old(st.profiles))|
    ensures st.profiles == old(st.profiles) + Accounts.DefaultProfiles(Accounts.UsersWithoutProfile(old(st.users), old(st.profiles)))
  {
    Accounts.MigrationCoversEveryone(st.users, st.profiles);
    first := st.MigrateProfiles();
    second := st.MigrateProfiles();
  }

  /** A user who registers can log in with the same password, given that
      the password check accepts what the hash of a password is checked
      against; the login answers the new user and its default profile. */
  method RegisterThenLogin(st: Store, email: string, password: string, hash: string -> string,
                           matches: (string, string) -> bool)
    returns (status: int, login: Accounts.LoginResult)
    requires st.Valid()
    requires forall p :: matches(p, hash(p))
    modifies st
    ensures st.Valid()
    ensures status == OK <==> FindUserByEmail(old(st.users), email).None?
    ensures status == OK ==>
              && login.LoginSuccess? && login.user.email == email && login.user.password == hash(password)
              && login.profile == Some(Accounts.DefaultProfile(login.user.id))
  {
    var created;
    status, created := st.Register(email, password, password, hash);
    login := Accounts.Login(email, password, st.users, st.profiles, matches);
  }
}
