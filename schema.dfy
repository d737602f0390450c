/**
 * The rows of the relational store the route handlers read and write. Ids
 * assigned by the store are natural numbers; ids that arrive in a request
 * are arbitrary integers and are stored as given. Timestamps are ticks of
 * a clock the caller passes in.
 */
module Schema {
  import opened Wrappers

  /** A registered account; `password` holds the bcrypt hash. */
  datatype User = User(id: nat, email: string, password: string)

  /** The one-to-one profile of the user whose id is `userId` (the
      `userid` column). */
  datatype Profile = Profile(userId: int, username: Option<string>, profileImage: Option<string>, bio: Option<string>)

  /** A chat between `user1Id` and `user2Id`; `updatedAt` is bumped on
      every message sent into it. */
  datatype Conversation = Conversation(id: nat, user1Id: int, user2Id: int, updatedAt: nat)

  datatype Message = Message(
    id: nat, conversationId: int, senderId: int, receiverId: int,
    content: string, createdAt: nat, seen: bool)

  datatype Post = Post(id: nat, authorId: int, title: string, content: string, createdAt: nat)

  datatype Like = Like(id: nat, postId: int, userId: int)

  datatype Comment = Comment(id: nat, postId: int, userId: int, content: string)

  /** A notification for `userId`; `kind` is the `type` column ('like',
      'comment', ...). */
  datatype Notification = Notification(
    id: nat, userId: int, kind: string, postId: Option<int>, fromUserId: Option<int>,
    message: string, read: bool, createdAt: nat)
}
