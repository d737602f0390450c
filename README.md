# A verified model of the social app's route handlers

The application is a Next.js site backed by a relational store (through
Prisma). It has these parts:

- A chat, with conversations between pairs of users, messages, seen flags,
  a thread list, a per-conversation history and an inbox.
- Posts with likes. The like route toggles a like and notifies the post's
  author.
- Notifications, with a list, a mark-as-read update and unread counters.
- Post deletion, which cascades to the post's comments and likes.
- Accounts: registration, login, a lazily created profile, a profile
  update and a migration that gives every user a profile.
- A user search and a post search.
- An image upload route that returns a base 64 `data:` URL.
- The route guard (`middleware`), and helpers for image references and
  user display defaults.

The model is split into these modules:

- `Schema` holds the rows of the tables.
- `Http` holds requests, query parameters, the `userEmail` cookie and
  status codes.
- `Text` covers JavaScript's `trim`, `startsWith` and `includes`, ASCII
  case folding and decimal rendering.
- `Query` covers filter, count, a stable sort, take and distinct.
- `Base64` is section 4 of RFC 4648. Its decoder exists only as the
  partner of the encoder for the round trip; it reads any text, stopping
  at a tail of fewer than four characters.
- There is one module per concern: `Chat`, `Posts`, `Notifications`,
  `Accounts`, `UserSearch`, `Upload`, `ImageUtils`, `Middleware` and
  `UserUtils`.

Routes that only read are functions over the tables. Routes that write are
methods of `Store.Store`. That class has one `seq` field per table and one
auto-increment counter per table. Its invariant `Valid()` states the
following:

- the keys of the tables with a counter (users, conversations, messages,
  likes, notifications) are unique and below their counter, and post ids
  are unique (posts are never created here); comment ids are not tracked;
- emails are unique;
- each user has at most one profile, and every profile belongs to a
  stored user;
- there is at most one conversation per unordered pair, between two
  distinct users;
- there is at most one like per (post, user).

Each writing method states its whole new state as an update of
`Snapshot()`. Each such route runs as one sequential step, so the three
deletes of the post-delete transaction happen together or not at all.
`Scenarios` strings several requests together and proves what the routes
promise about such sequences.

Two choices fix how inputs are represented:

- A JSON body field is an `Option`, where `None` is missing or null. Its
  JavaScript truthiness is written out: `IsId` means present and not 0, and
  `IsText` means present and not "".
- A query parameter is `Absent`, `Empty`, `NonNumeric` or `Numeric(n)`:
  its integer outcome under `Number(...)` or `parseInt(...)`. Numbers that
  are not integers are not modelled.

Three things the code calls are parameters of the model:

- the clock reading `now`;
- bcrypt's `hash` and `compare`;
- whether writing a like notification fails.

The notification `type` column is the field `kind`.

## Model

| member | source | states |
|---|---|---|
| Text.Trim | next/src/app/api/chat/send/route.ts:50 | the result is a slice of the input, every character around it is white space, and it neither starts nor ends with white space |
| Text.TrimIdempotent | next/src/app/api/users/search/route.ts:18 | trimming an already trimmed string changes nothing |
| Text.BlankIffAllSpace | next/src/app/api/chat/send/route.ts:9 | `!s.trim()` holds exactly when every character of `s` is white space |
| Text.ContainsIffOccurs | next/src/app/api/posts/search/route.ts:14-29 | `includes`/`contains` holds exactly when the needle occurs at some position |
| Text.ParseNatToString | next/src/lib/userUtils.ts:27 | the decimal rendering of an id reads back as that id |
| Text.NatToStringInjective | next/src/lib/userUtils.ts:27 | two distinct ids never render the same |
| Base64.Encode | next/src/app/api/upload/route.ts:25-29 | the encoding of n bytes has 4·⌈n/3⌉ characters, a multiple of four |
| Base64.EncodeIsText | next/src/app/api/upload/route.ts:29 | an encoding uses only the RFC 4648 alphabet and '=' |
| Base64.DecodeEncode | next/src/app/api/upload/route.ts:29 | decoding the encoding of any bytes gives back those bytes |
| Http.NumberOf | next/src/app/api/chat/threads/route.ts:8 | `Number(param)`: NaN exactly for non-numeric text; 0 for a missing or empty parameter |
| Http.FindUserByEmail | next/src/app/api/post/like/route.ts:18 | a found user is in the table with that email; a miss means no user has it |
| Http.CurrentUser | next/src/app/api/post/like/route.ts:11-21 | signed out exactly when the cookie is missing or empty; a signed-in user is stored and has the cookie's email; an unknown user means no stored user has that email |
| Http.SessionStatus | next/src/app/api/post/like/route.ts:14-21 | 401 when signed out, 404 for an unknown user |
| Chat.FindConversation | next/src/app/api/chat/send/route.ts:27-34 | a found conversation is stored and joins the pair in either order; none is found exactly when no stored conversation joins them |
| Chat.FindConversationSymmetric | next/src/app/api/chat/conversation/route.ts:21-28 | the lookup gives the same answer for (a, b) and (b, a) |
| Chat.FindAppended | next/src/app/api/chat/send/route.ts:36-42 | after creating the pair's conversation, the lookup finds it in both orders |
| Chat.AppendKeepsOnePerPair | next/src/app/api/chat/conversation/route.ts:21-43 | creating a conversation only when the pair has none keeps one conversation per unordered pair |
| Chat.Touch | next/src/app/api/chat/send/route.ts:56-59 | only the conversation with that id has its `updatedAt` set to `now`; every other field and every other conversation is unchanged |
| Chat.FindAfterTouch | next/src/app/api/chat/send/route.ts:56-59 | bumping `updatedAt` does not change which conversation a pair has |
| Chat.TouchKeepsOnePerPair | next/src/app/api/chat/send/route.ts:56-59 | bumping `updatedAt` keeps one conversation per pair |
| Chat.OtherParticipant | next/src/app/api/chat/threads/route.ts:27 | the other user is `user2` when `user1Id` is the caller, and `user1` otherwise |
| Chat.OtherParticipantOfPair | next/src/app/api/chat/threads/route.ts:27 | for a participant of a conversation between two users, the other participant is not the caller and is the conversation's partner |
| Chat.UnreadCount | next/src/app/api/chat/threads/route.ts:28-30 | at most the number of messages; 0 exactly when no message of the conversation is unseen and addressed to the user |
| Chat.MarkSeenIn | next/src/app/api/chat/markSeen/route.ts:16-19 | every message keeps all its fields but `seen`; `seen` afterwards means it was seen before or is addressed to the user in that conversation |
| Chat.MarkSeenClearsUnread | next/src/app/api/chat/markSeen/route.ts:16-19 | afterwards the user has no unseen message in that conversation |
| Chat.MarkSeenIdempotent | next/src/app/api/chat/markSeen/route.ts:16-19 | a second mark changes nothing |
| Chat.MarkSeenMonotone | next/src/app/api/chat/markSeen/route.ts:18 | a seen message is left as it was; `seen` is never reset |
| Chat.MarkSeenKeepsOtherCounts | next/src/app/api/chat/markSeen/route.ts:16-19 | the unread count of every other conversation or receiver is unchanged |
| Chat.LatestMessage | next/src/app/api/chat/threads/route.ts:17 | absent exactly when the conversation has no message; otherwise a message of it that no other message of it is newer than |
| Chat.ThreadConversations | next/src/app/api/chat/threads/route.ts:14-21 | exactly the conversations the user takes part in, each as often as stored, ordered by `updatedAt`, newest first |
| Chat.Threads | next/src/app/api/chat/threads/route.ts:6-35 | 400 exactly when the parameter is absent, non-numeric or 0; otherwise one thread per conversation of the user, most recently active first, each with the other participant, the latest message and the unread count |
| Chat.ThreadsAreTheUsers | next/src/app/api/chat/threads/route.ts:14-31 | every thread is of a conversation the user is in, and every such conversation has a thread |
| Chat.ThreadUnreadAfterMarkSeen | next/src/app/api/chat/threads/route.ts:28-30 | after the user marks a conversation seen, its thread shows 0 unread |
| Chat.FindConversationById | next/src/app/api/chat/thread/route.ts:36-39 | a found conversation is stored under that id; a miss means no conversation has it |
| Chat.History | next/src/app/api/chat/thread/route.ts:11-59 | 400 for a missing or non-numeric conversation id, and for a given but non-numeric user id; 403 when a user id is given and the conversation is unknown or the user is not in it; with no user id, always 200 |
| Chat.HistoryIsTheConversation | next/src/app/api/chat/thread/route.ts:54-57 | the history holds exactly the conversation's messages, each as often as stored, oldest first |
| Chat.Inbox | next/src/app/api/chat/inbox/route.ts:9-14 | only messages received by the user; one per sender, and every sender who wrote to the user is present; each is that sender's newest; newest first |
| Posts.LikeCount | next/src/app/api/post/like/route.ts:38-40 | at most the number of likes; 0 exactly when no like is on the post |
| Posts.FindLike | next/src/app/api/post/like/route.ts:24-29 | found exactly when the user likes the post, and what is found is that user's stored like on that post |
| Posts.LikePairsIffLikedBy | next/src/app/api/post/like/route.ts:24-31 | a (post, user) pair is in the table exactly when the user likes the post |
| Posts.LikeCountWithout | next/src/app/api/post/like/route.ts:33-40 | deleting a like lowers its own post's count by one and leaves every other count as it was |
| Posts.UnlikeRemovesPair | next/src/app/api/post/like/route.ts:33-35 | deleting a like removes exactly its pair and keeps one like per pair and unique ids |
| Posts.LikeAddsPair | next/src/app/api/post/like/route.ts:48-54 | creating a like for a pair not yet liked keeps one like per pair, adds exactly that pair and raises the post's count by one |
| Posts.LikeKeepsOtherCounts | next/src/app/api/post/like/route.ts:48-54 | creating a like leaves every other post's count as it was |
| Posts.Feed | next/src/app/api/posts/route.ts:11-38 | every post exactly once, newest first; each with the number of likes on it and `isLikedByUser` true exactly when the cookie names a stored user who likes it; false without a cookie |
| Posts.SearchPosts | next/src/app/api/posts/search/route.ts:9-45 | at most 20 posts, newest first, each stored and, when the query is not blank, with title or content containing the untrimmed query, ignoring case; as many as match up to 20; none left out is newer than one returned; no row is returned more often than it matches |
| Posts.FindPost | next/src/app/api/post/delete/route.ts:29-32 | a found post is stored under that id; a miss means no post has it |
| Posts.CommentsAfterDelete | next/src/app/api/post/delete/route.ts:45-47 | exactly the comments not on the post remain |
| Posts.LikesAfterDelete | next/src/app/api/post/delete/route.ts:49-51 | exactly the likes not on the post remain |
| Posts.PostsAfterDelete | next/src/app/api/post/delete/route.ts:53-55 | exactly the posts with another id remain |
| Posts.DeleteKeepsOtherCounts | next/src/app/api/post/delete/route.ts:49-51 | the cascade leaves every other post's like count as it was |
| Notifications.ListNotifications | next/src/app/api/notifications/route.ts:6-47 | 401 without a cookie and 404 for an unknown user; otherwise exactly the user's notifications, of the asked type unless it is missing, empty or 'all', each as often as stored, newest first |
| Notifications.MarkReadIn | next/src/app/api/notifications/route.ts:74-82 | every notification keeps all its fields but `read`; `read` afterwards means it was read or it is the caller's and, when a list is given, listed |
| Notifications.MarkReadOwnerOnly | next/src/app/api/notifications/route.ts:74-78 | a notification that changes is the caller's, was unread, and is listed when a list is given |
| Notifications.MarkReadIdempotent | next/src/app/api/notifications/route.ts:74-82 | a second update with the same list changes nothing |
| Notifications.MarkReadNeverClears | next/src/app/api/notifications/route.ts:79-81 | a read notification stays read |
| Notifications.UnreadCounts | next/src/app/api/notifications/counts/route.ts:5-39 | 401 without a cookie and 404 for an unknown user; otherwise the number of the user's unread notifications, of those of type 'like' and of those of type 'comment'; likes + comments ≤ all |
| Notifications.CountsAfterMarkAll | next/src/app/api/notifications/counts/route.ts:23-33 | after a PATCH with no list, all three counters are 0 |
| Accounts.FindUserById | next/src/app/api/users/profile/route.ts:16-21 | a found user is stored under that id; a miss means no user has it |
| Accounts.FindProfile | next/src/app/api/users/profile/route.ts:28 | a found profile is stored and is the user's; a miss means the user has none |
| Accounts.DefaultProfile | next/src/app/api/users/profile/route.ts:29-38 | the default profile is the user's and stores the username `Nuser<id>`, the image '/globe.svg' and no bio; it shows the same username and image as having no profile |
| Accounts.Keep | next/src/app/api/users/profile/route.ts:87-89 | a truthy new value replaces the old one; "" or a missing value keeps it |
| Accounts.UpdateProfile | next/src/app/api/users/profile/route.ts:86-90 | each of username, image and bio is replaced only by a truthy new value; the owner is unchanged |
| Accounts.UpdateProfileIdempotent | next/src/app/api/users/profile/route.ts:86-90 | the same update twice is the update once; an update of empty values changes nothing |
| Accounts.UpsertProfile | next/src/app/api/users/profile/route.ts:82-97 | with a profile, only that user's row is updated; without one, a profile holding the given values is appended |
| Accounts.UpsertKeepsOneProfile | next/src/app/api/users/profile/route.ts:82-97 | afterwards the user has exactly one profile, the updated or the created one; every other user's profile is unchanged |
| Accounts.FindProfileAppend | next/src/app/api/users/profile/route.ts:32-39 | after appending a profile, the lookup finds the old profile if there was one, else the appended one for its owner |
| Accounts.UsersWithoutProfile | next/src/app/api/users/migrate-profiles/route.ts:9-17 | exactly the users with no profile, as a subsequence of the user table (in table order) |
| Accounts.DefaultProfiles | next/src/app/api/users/migrate-profiles/route.ts:27-36 | one default profile per user found, in the same order |
| Accounts.MigrationCoversEveryone | next/src/app/api/users/migrate-profiles/route.ts:9-38 | after the migration's inserts every user has a profile and a second search finds nobody |
| Accounts.Login | next/src/app/lib/controller/authController.ts:72-98 | an unknown email fails on 'email' with 401; a known email with a password bcrypt rejects fails on 'password' with 401; otherwise 200 with that user and its profile |
| UserUtils.DefaultUsername | next/src/lib/userUtils.ts:27 | `Nuser` followed by digits that read back as the id |
| UserUtils.DefaultUsernameInjective | next/src/lib/userUtils.ts:27 | two users never get the same default username |
| UserUtils.DisplayUsername | next/src/lib/userUtils.ts:35-37 | the profile's username when it is non-empty, `Nuser<id>` otherwise; never empty |
| UserUtils.ProfileImage | next/src/lib/userUtils.ts:42-44 | the profile's image when it is non-empty, '/globe.svg' otherwise; never empty |
| UserUtils.TransformUserToSafe | next/src/lib/userUtils.ts:20-30 | throws 'User is required' exactly for a missing user; otherwise keeps the id, with the display username and image |
| UserUtils.AvatarLetter | next/src/lib/userUtils.ts:49-52 | one character, the upper-cased first character of the display username; 'N' when the user has no username |
| UserSearch.Joined | next/src/app/api/users/search/route.ts:33-40 | every user once, in table order, each with its own profile |
| UserSearch.ByUsernameThenEmailOrders | next/src/app/api/users/search/route.ts:42-45 | username ascending with missing usernames last, then email ascending, is a total preorder |
| UserSearch.SearchUsers | next/src/app/api/users/search/route.ts:8-48 | 400 exactly when `q` is missing or empty; otherwise ordered by username then email, each a stored user with its profile, not the excluded one, whose email or username contains the trimmed query, ignoring case; as many as match up to 10, and none left out comes before one returned; no candidate is returned more often than it occurs |
| UserSearch.SearchTrimsQuery | next/src/app/api/users/search/route.ts:18 | white space around the query changes nothing |
| UserSearch.BlankQuerySelectsEveryone | next/src/app/api/users/search/route.ts:14-29 | a query of white space only passes the check and matches every user but the excluded one |
| ImageUtils.IsBase64Image | next/src/lib/imageUtils.ts:1-4 | true exactly when the reference is present and starts with 'data:image/' |
| ImageUtils.IsValidImageUrl | next/src/lib/imageUtils.ts:6-16 | true exactly when the reference starts with 'data:image/', 'http://', 'https://' or '/' |
| ImageUtils.Base64ImageIsValid | next/src/lib/imageUtils.ts:1-16 | every data image reference is a valid image reference |
| ImageUtils.ImageDisplayUrl | next/src/lib/imageUtils.ts:18-21 | the reference itself, non-empty, exactly when it is valid; null otherwise |
| ImageUtils.ImageDisplayUrlIdempotent | next/src/lib/imageUtils.ts:18-21 | applying it to its own output changes nothing |
| ImageUtils.AllowedTypesAreImages | next/src/lib/imageUtils.ts:24 | each of the five allowed types starts with 'image/' |
| ImageUtils.ValidateImageFile | next/src/lib/imageUtils.ts:23-42 | valid exactly when the type is one of the five and the size is at most 5242880; a wrong type gets the type error even when oversized; a valid file has no error |
| Upload.Upload | next/src/app/api/upload/route.ts:6-38 | 400 for a missing file, then for a wrong type, then for a size over 5 MiB; accepted exactly when the file validator accepts it; the data URL of type and bytes, with name, size and type echoed; the URL is a data image URL |
| Upload.UploadKeepsBytes | next/src/app/api/upload/route.ts:25-29 | what follows the URL's header decodes to exactly the uploaded bytes |
| Middleware.Decide | next/src/middleware.ts:4-33 | static, image and API paths and paths with a dot pass; otherwise the guard redirects exactly when being signed in matches being on /login or /register, to /login when signed out and to /home when signed in |
| Middleware.EmptyCookieIsSignedOut | next/src/middleware.ts:5-19 | an empty cookie is decided exactly as no cookie |
| Middleware.NoRedirectLoop | next/src/middleware.ts:19-30 | the target of a redirect, with the same cookie, passes |
| Store.FindUserByEmailAppend | next/src/app/lib/controller/authController.ts:35-37 | a user added with a new email is found by that email |
| Store.MigrationStepOk | next/src/app/api/users/migrate-profiles/route.ts:27-36 | the next profile the migration creates is for a stored user who has none yet |
| Store.UpsertOk | next/src/app/api/users/profile/route.ts:82-97 | the upsert for a stored user keeps one profile per user, each for a stored user |
| Store.AppendLikeOk | next/src/app/api/post/like/route.ts:48-54 | creating a like for a pair not yet liked keeps the like table valid |
| Store.ToggleFacts | next/src/app/api/post/like/route.ts:24-54 | a toggle removes the user's pair when it was there and adds it otherwise, moves the post's count by one, and leaves every other count and the table's validity intact |
| Store.ToggleTwiceRestoresPairs | next/src/app/api/post/like/route.ts:24-54 | two toggles by the same user on the same post restore the set of liked pairs |
| Store.ToggleTwiceRestoresCounts | next/src/app/api/post/like/route.ts:24-54 | two toggles by the same user on the same post restore every post's like count |
| Store.ToggleFlips | next/src/app/api/post/like/route.ts:31-54 | after a toggle the user likes the post exactly when they did not before |
| Store.LikesAfterDeleteOk | next/src/app/api/post/delete/route.ts:49-51 | deleting a post's likes keeps the like table valid |
| Store.PostsAfterDeleteOk | next/src/app/api/post/delete/route.ts:53-55 | deleting the post keeps the remaining post ids unique |
| Store.MarkReadOk | next/src/app/api/notifications/route.ts:74-82 | marking read keeps the notification table valid |
| Store.LikeNotice | next/src/app/api/post/like/route.ts:57-78 | at most one notification, present exactly when the post exists, its author is not the liker and the write does not fail; it goes to the author from the liker, about the post, of type 'like', unread |
| Store.Store.Send | next/src/app/api/chat/send/route.ts:6-62 | 400 with nothing written when sender, receiver or non-blank content is missing, or sender equals receiver; otherwise the given conversation id as it is, or the pair's conversation in either order, or a new one (sender, receiver); exactly one unseen message with the trimmed content appended; only that conversation's `updatedAt` set to `now`, or 500 when no conversation has the id |
| Store.Store.AppendMessage | next/src/app/api/chat/send/route.ts:45-53 | appends the message and advances the message counter, keeping the store valid |
| Store.Store.TouchConversation | next/src/app/api/chat/send/route.ts:56-59 | 200 and `updatedAt` set when the conversation exists; 500 and nothing changed otherwise |
| Store.Store.ResolveConversation | next/src/app/api/chat/send/route.ts:24-43 | the given id, else the pair's conversation, else a newly created one (sender, receiver); a conversation is created only in the last case |
| Store.Store.StartConversation | next/src/app/api/chat/conversation/route.ts:8-53 | 400 with nothing written for a missing or zero id or equal ids; the pair's existing conversation with 200 and nothing written; otherwise one new conversation (first, second) with 201 |
| Store.Store.MarkSeen | next/src/app/api/chat/markSeen/route.ts:6-22 | 400 with nothing written when an id is missing or 0; otherwise 200 and the messages table becomes its marked-seen image |
| Store.Store.ToggleLike | next/src/app/api/post/like/route.ts:7-95 | 401 or 404 with nothing written for a failed session check; otherwise the user's like is deleted (`liked` false) or created (`liked` true, with the author's notice); the returned count is the post's count afterwards, one less or one more than before; every other count unchanged |
| Store.Store.RemoveLike | next/src/app/api/post/like/route.ts:33-35 | deletes the like with that id, keeping the store valid |
| Store.Store.AddLike | next/src/app/api/post/like/route.ts:49-54 | appends a like for a pair not yet liked and advances the like counter |
| Store.Store.AddNotification | next/src/app/api/post/like/route.ts:65-73 | appends the notification and advances the notification counter |
| Store.Store.MarkNotificationsRead | next/src/app/api/notifications/route.ts:55-84 | 401 or 404 with nothing written for a failed session check; otherwise 200 and only the caller's listed notifications (all of them with no list) become read |
| Store.Store.DeletePost | next/src/app/api/post/delete/route.ts:7-58 | 401 or 404 for a failed session check, 404 for an unknown post, 403 for a non-author, each with nothing written; otherwise the post, its comments and its likes are gone and everything else is unchanged |
| Store.Store.Cascade | next/src/app/api/post/delete/route.ts:43-56 | the three deletes of the transaction, applied together |
| Store.Store.GetProfile | next/src/app/api/users/profile/route.ts:7-66 | 400 for a missing user id, 500 for one that does not parse, 404 for an unknown user; otherwise the user with its profile, a default profile being created only when it had none |
| Store.Store.PutProfile | next/src/app/api/users/profile/route.ts:73-105 | 400 for a missing or zero user id, 500 for a user the store does not hold; otherwise the user's profile is updated with the truthy values or created, and no other user's profile changes |
| Store.Store.Register | next/src/app/lib/controller/authController.ts:12-69 | 409 for a taken email, checked before the 400 for a password mismatch, each with nothing written; otherwise exactly one user, storing the hash of the password, and its default profile; the user is then found by its email |
| Store.Store.AddUser | next/src/app/lib/controller/authController.ts:35-37 | appends a user with a new email and advances the user counter |
| Store.Store.AddProfile | next/src/app/lib/controller/authController.ts:43-50 | appends a profile for a stored user who has none |
| Store.Store.MigrateProfiles | next/src/app/api/users/migrate-profiles/route.ts:6-44 | `updated` is the number of users who had no profile; one default profile is appended for each and existing profiles are untouched; afterwards every user has a profile |
| Store.Store.CreateDefaultProfiles | next/src/app/api/users/migrate-profiles/route.ts:27-38 | appends the default profile of each user in the list, in order |
| Scenarios.SendThenReply | next/src/app/api/chat/send/route.ts:26-43 | a message and its reply, sent without a conversation id, land in the same conversation, and at most one conversation is created |
| Scenarios.StartBothWays | next/src/app/api/chat/conversation/route.ts:21-48 | starting (a, b) and then (b, a) answers the same id and creates at most one conversation |
| Scenarios.MarkSeenTwice | next/src/app/api/chat/markSeen/route.ts:16-19 | marking twice leaves the table as marking once does, with no unread message left for the user |
| Scenarios.ToggleTwice | next/src/app/api/post/like/route.ts:24-54 | two toggles answer opposite `liked` values and restore the liked pairs and every like count |
| Scenarios.MarkAllThenCount | next/src/app/api/notifications/counts/route.ts:23-39 | after a PATCH with no list, the counters are all 0 |
| Scenarios.GetProfileTwice | next/src/app/api/users/profile/route.ts:28-39 | two reads of a profile answer the same and create at most one profile |
| Scenarios.MigrateTwice | next/src/app/api/users/migrate-profiles/route.ts:19-24 | the second run reports 0; after both runs exactly one default profile has been appended per user who had none |
| Scenarios.RegisterThenLogin | next/src/app/lib/controller/authController.ts:72-97 | after a successful registration, logging in with that email and password succeeds with the new user and its default profile |

## Left out

- I/O and concurrency are left out: reading request bodies, cookies and
  URLs, the JSON responses, `Promise.all` fan-out, and the race between
  two first messages of a pair. Each route is one sequential step.
- The clock is a parameter (`now`). Date values and their formatting are
  not modelled.
- The store's runtime failures are left out, except for three 500 paths:
  - the conversation update in send for an unknown id;
  - the profile read with an id that does not parse;
  - the profile upsert for an unknown user.
  The model does not advance a counter for a write that fails.
- There are no foreign keys on messages, likes, comments or notifications.
  A like on a post that does not exist is stored, as the route would store
  it without such a constraint. Profiles do keep their foreign key, in
  `Valid()`.
- Ids that are NaN or not integers are not modelled in the like, delete
  and inbox routes (`parseInt`/`Number` of a non-number). In the threads
  and thread routes a query id such as "1.5" reads as a number that is not
  an integer; it passes their `!userId` and `isNaN` checks and reaches the
  store as a float for an integer column (a 500). `QueryParam` has no such
  value, so those 500s are not modelled. Neither are JSON
  fields of the wrong type. The `postId` of the like and delete routes is
  always a present integer in the model. A missing `postId`, which the
  delete route passes straight to the lookup (a 500), is not modelled.
  The other ids in bodies are integers or missing.
- UserUtils.AvatarLetter: strings are sequences of code points, not of
  UTF-16 code units, so `charAt(0)` of a name starting outside the Basic
  Multilingual Plane gives half a surrogate pair in the code but the whole
  character here. Upper-casing is ASCII only, so the model always returns
  one character where full `toUpperCase` can return two ("ß" gives "SS").
- Case folding is ASCII only. Text columns are ordered by code point (the
  "C" collation), and missing usernames sort last.
- Rows with equal sort keys are kept in table order. The store itself
  leaves their order open.
- `formatFileSize` (floating point) and `fileToBase64` (browser
  `FileReader`) are not modelled.
- The related rows that responses include (the author and profile of a
  post, the other user of a thread, the sender of an inbox message) are not
  modelled. The model keeps the ids those rows are joined on.
- The user search response returns whole user rows, so it includes each
  user's password hash. The model's results carry the whole row too; no
  contract says anything about that field.
- Send with a given conversation id performs no participant check. The
  model says so rather than adding one.
- bcrypt's `hash` and `compare` are parameters. Scenarios assume only that
  `compare(p, hash(p))` holds.
- The React pages and components, the polling notification hook, the
  debug routes, the cookie-setting login/me/logout routes, post creation,
  comments and the tests are not part of this model. An empty cookie
  counts as logged out, because logout sets it to "".
