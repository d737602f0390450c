/**
 * Posts and their likes: the feed with like counts, the post search, the
 * like toggle's effect on the like table and the cascade that deleting a
 * post performs.
 */
module Posts {
  import opened Wrappers
  import opened Schema
  import opened Http
  import opened Query
  import Text

  // ---------------------------------------------------------------- likes

  /** The likes on post `postId`. */
  function LikesOn(likes: seq<Like>, postId: int): seq<Like> {
    Filter(likes, (l: Like) => l.postId == postId)
  }

  /** `prisma.like.count({ where: { postId } })`. */
  function LikeCount(likes: seq<Like>, postId: int): (n: nat)
    ensures n <= |likes|
    ensures n == 0 <==> forall l :: l in likes ==> l.postId != postId
  {
    var on := LikesOn(likes, postId);
    assert on != [] ==> on[0] in on;
    |on|
  }

  /** Some like on post `postId` is by user `userId`. */
  predicate LikedBy(likes: seq<Like>, postId: int, userId: int) {
    exists l :: l in likes && l.postId == postId && l.userId == userId
  }

  /** `prisma.like.findFirst({ where: { postId, userId } })`. */
  function FindLike(likes: seq<Like>, postId: int, userId: int): (r: Option<Like>)
    ensures r.None? <==> !LikedBy(likes, postId, userId)
    ensures r.Some? ==> r.value in likes && r.value.postId == postId && r.value.userId == userId
  {
    if likes == [] then None
    else if likes[0].postId == postId && likes[0].userId == userId then Some(likes[0])
    else
      var r := FindLike(likes[1..], postId, userId);
      assert forall l :: l in likes[1..] ==> l in likes;
      assert likes == [likes[0]] + likes[1..];
      r
  }

  /** The (post, user) pairs the like table holds. */
  function LikePairs(likes: seq<Like>): set<(int, int)> {
    set l | l in likes :: (l.postId, l.userId)
  }

  /** A pair is in the table exactly when the user has liked the post. */
  lemma LikePairsIffLikedBy(likes: seq<Like>, postId: int, userId: int)
    ensures (postId, userId) in LikePairs(likes) <==> LikedBy(likes, postId, userId)
  {
    if (postId, userId) in LikePairs(likes) {
      var l :| l in likes && (l.postId, l.userId) == (postId, userId);
    }
  }

  /** At most one like per post and user. */
  predicate OneLikePerPair(likes: seq<Like>) {
    forall i, j :: 0 <= i < j < |likes| ==>
      likes[i].postId != likes[j].postId || likes[i].userId != likes[j].userId
  }

  /** No two likes share an id. */
  predicate UniqueLikeIds(likes: seq<Like>) {
    forall i, j :: 0 <= i < j < |likes| ==> likes[i].id != likes[j].id
  }

  /** `prisma.like.delete({ where: { id } })`. */
  function WithoutLike(likes: seq<Like>, id: int): seq<Like> {
    Filter(likes, (l: Like) => l.id != id)
  }

  /** Deleting the like with a given id drops exactly that like from the
      count of its post, and no other post's count changes. */
  lemma {:induction false} LikeCountWithout(likes: seq<Like>, l: Like, postId: int)
    requires UniqueLikeIds(likes) && l in likes
    ensures LikeCount(WithoutLike(likes, l.id), postId)
            == LikeCount(likes, postId) - (if l.postId == postId then 1 else 0)
  {
    var p := (x: Like) => x.postId == postId;
    var keep := (x: Like) => x.id != l.id;
    assert likes == [likes[0]] + likes[1..];
    var w := WithoutLike(likes, l.id);
    if likes[0] == l {
      assert forall x :: x in likes[1..] ==> x.id != l.id by {
        forall x | x in likes[1..] ensures x.id != l.id {
          var k :| 0 <= k < |likes[1..]| && likes[1..][k] == x;
          assert likes[k + 1] == x;
        }
      }
      FilterAll(likes[1..], keep);
      assert w == likes[1..];
    } else {
      assert l in likes[1..];
      LikeCountWithout(likes[1..], l, postId);
      assert w == (if keep(likes[0]) then [likes[0]] else []) + WithoutLike(likes[1..], l.id);
      assert keep(likes[0]);
    }
  }

  /** Deleting a like keeps the table free of duplicate pairs and removes
      exactly its (post, user) pair. */
  lemma UnlikeRemovesPair(likes: seq<Like>, l: Like)
    requires UniqueLikeIds(likes) && OneLikePerPair(likes) && l in likes
    ensures OneLikePerPair(WithoutLike(likes, l.id)) && UniqueLikeIds(WithoutLike(likes, l.id))
    ensures LikePairs(WithoutLike(likes, l.id)) == LikePairs(likes) - {(l.postId, l.userId)}
  {
    var w := WithoutLike(likes, l.id);
    SubsequenceKeepsDistinct(likes, l.id);
    forall pr | pr in LikePairs(likes) - {(l.postId, l.userId)} ensures pr in LikePairs(w) {
      var x :| x in likes && (x.postId, x.userId) == pr;
      assert x.id != l.id;
    }
    forall pr | pr in LikePairs(w) ensures pr != (l.postId, l.userId) {
      var x :| x in w && (x.postId, x.userId) == pr;
      var i :| 0 <= i < |likes| && likes[i] == x;
      var j :| 0 <= j < |likes| && likes[j] == l;
      assert i != j;
    }
  }

  /** Filtering by id keeps the table's two uniqueness properties. */
  lemma {:induction false} SubsequenceKeepsDistinct(likes: seq<Like>, id: int)
    requires UniqueLikeIds(likes) && OneLikePerPair(likes)
    ensures OneLikePerPair(WithoutLike(likes, id)) && UniqueLikeIds(WithoutLike(likes, id))
  {
    if likes != [] {
      var h, t := likes[0], likes[1..];
      SubsequenceKeepsDistinct(t, id);
      var wt := WithoutLike(t, id);
      forall x | x in wt ensures x.id != h.id && (x.postId != h.postId || x.userId != h.userId) {
        var k :| 0 <= k < |t| && t[k] == x;
        assert likes[k + 1] == x;
      }
      var w := WithoutLike(likes, id);
      assert likes == [h] + t;
      if h.id != id {
        assert w == [h] + wt;
        ConsKeepsDistinct(h, wt);
      } else {
        assert w == wt;
      }
    }
  }

  /** A like that differs from every like of a table in id and in pair can
      be put in front of it. */
  lemma ConsKeepsDistinct(h: Like, t: seq<Like>)
    requires UniqueLikeIds(t) && OneLikePerPair(t)
    requires forall x :: x in t ==> x.id != h.id && (x.postId != h.postId || x.userId != h.userId)
    ensures UniqueLikeIds([h] + t) && OneLikePerPair([h] + t)
  {
    var w := [h] + t;
    forall i, j | 0 <= i < j < |w|
      ensures w[i].id != w[j].id && (w[i].postId != w[j].postId || w[i].userId != w[j].userId)
    {
      assert w[j] == t[j - 1];
      if i == 0 {
        assert t[j - 1] in t;
      } else {
        assert w[i] == t[i - 1];
      }
    }
  }

  /** Adding a like for a pair not yet liked keeps the table free of
      duplicate pairs, adds exactly that pair and adds one to the post's
      count. */
  lemma LikeAddsPair(likes: seq<Like>, l: Like)
    requires OneLikePerPair(likes) && !LikedBy(likes, l.postId, l.userId)
    ensures OneLikePerPair(likes + [l])
    ensures LikePairs(likes + [l]) == LikePairs(likes) + {(l.postId, l.userId)}
    ensures LikeCount(likes + [l], l.postId) == LikeCount(likes, l.postId) + 1
  {
    var w := likes + [l];
    forall i, j | 0 <= i < j < |w| ensures w[i].postId != w[j].postId || w[i].userId != w[j].userId {
      assert w[i] == likes[i];
      if j == |likes| {
        assert likes[i] in likes;
      } else {
        assert w[j] == likes[j];
      }
    }
    assert LikePairs(w) == LikePairs(likes) + {(l.postId, l.userId)} by {
      assert forall x :: x in w <==> x in likes || x == l;
    }
    FilterSnoc(likes, l, (x: Like) => x.postId == l.postId);
  }

  /** Adding a like changes no other post's count. */
  lemma LikeKeepsOtherCounts(likes: seq<Like>, l: Like)
    ensures forall postId :: postId != l.postId ==> LikeCount(likes + [l], postId) == LikeCount(likes, postId)
  {
    forall postId | postId != l.postId ensures LikeCount(likes + [l], postId) == LikeCount(likes, postId) {
      FilterSnoc(likes, l, (x: Like) => x.postId == postId);
    }
  }

  // ---------------------------------------------------------------- feed

  /** Newest first, on `createdAt`. */
  function NewestPostFirst(): (Post, Post) -> bool {
    (a: Post, b: Post) => a.createdAt >= b.createdAt
  }

  lemma NewestPostFirstOrders()
    ensures TotalPreorder(NewestPostFirst())
  {
  }

  /** A post as the feed sends it: its own fields, its like count and
      whether the signed-in user likes it. */
  datatype PostView = PostView(post: Post, likeCount: nat, isLikedByUser: bool)

  function PostsOf(vs: seq<PostView>): (ps: seq<Post>)
    ensures |ps| == |vs| && forall i :: 0 <= i < |vs| ==> ps[i] == vs[i].post
  {
    seq(|vs|, i requires 0 <= i < |vs| => vs[i].post)
  }

  /** What the feed says about one post for session `s`. */
  function ViewOf(p: Post, likes: seq<Like>, s: Session): PostView {
    PostView(p, LikeCount(likes, p.id), s.SignedIn? && LikedBy(likes, p.id, s.user.id))
  }

  /** GET /api/posts: every post once, newest first, with the number of
      likes on it and whether the user the cookie names likes it; with no
      cookie or no such user nothing is liked. */
  function Feed(cookie: Option<string>, users: seq<User>, posts: seq<Post>, likes: seq<Like>): (r: seq<PostView>)
    ensures |r| == |posts|
    ensures multiset(PostsOf(r)) == multiset(posts)
    ensures SortedBy(PostsOf(r), NewestPostFirst())
    ensures forall v :: v in r ==> v.likeCount == |LikesOn(likes, v.post.id)|
    ensures !IsText(cookie) ==> forall v :: v in r ==> !v.isLikedByUser
    ensures forall v :: v in r ==>
              (v.isLikedByUser <==> CurrentUser(users, cookie).SignedIn?
                                    && LikedBy(likes, v.post.id, CurrentUser(users, cookie).user.id))
  {
    NewestPostFirstOrders();
    var ordered := SortBy(posts, NewestPostFirst());
    var s := CurrentUser(users, cookie);
    var r := seq(|ordered|, i requires 0 <= i < |ordered| => ViewOf(ordered[i], likes, s));
    assert PostsOf(r) == ordered;
    assert |ordered| == |multiset(ordered)| == |posts|;
    r
  }

  // ---------------------------------------------------------------- search

  const SEARCH_LIMIT: nat := 20

  /** The title or the content contains `q`, ignoring case. */
  predicate MatchesQuery(p: Post, q: string) {
    Text.ContainsInsensitive(p.title, q) || Text.ContainsInsensitive(p.content, q)
  }

  /** `query && query.trim()`: a filter applies only to a query with
      something besides white space in it. */
  predicate Filters(q: Option<string>) {
    q.Some? && !Text.IsBlank(q.value)
  }

  /** The posts a query selects: all of them when it does not filter. */
  function Selected(q: Option<string>, posts: seq<Post>): seq<Post> {
    if Filters(q) then Filter(posts, (p: Post) => MatchesQuery(p, q.value)) else posts
  }

  /** GET /api/posts/search?q=: the newest 20 of the posts whose title or
      content contains the query as given (untrimmed), ignoring case; a
      missing or blank query selects every post. */
  function SearchPosts(q: Option<string>, posts: seq<Post>): (r: seq<Post>)
    ensures |r| <= SEARCH_LIMIT
    ensures SortedBy(r, NewestPostFirst())
    ensures forall p :: p in r ==> p in posts && (Filters(q) ==> MatchesQuery(p, q.value))
    ensures |r| == if |Selected(q, posts)| < SEARCH_LIMIT then |Selected(q, posts)| else SEARCH_LIMIT
    ensures forall p, y :: p in Selected(q, posts) && p !in r && y in r ==> y.createdAt >= p.createdAt
    ensures multiset(r) <= multiset(Selected(q, posts))
  {
    NewestPostFirstOrders();
    var sel := Selected(q, posts);
    var ordered := SortBy(sel, NewestPostFirst());
    var r := Take(ordered, SEARCH_LIMIT);
    TakeSorted(ordered, SEARCH_LIMIT, NewestPostFirst());
    SearchFacts(q, posts, ordered, r);
    r
  }

  lemma SearchFacts(q: Option<string>, posts: seq<Post>, ordered: seq<Post>, r: seq<Post>)
    requires SortedBy(ordered, NewestPostFirst()) && multiset(ordered) == multiset(Selected(q, posts))
    requires r == Take(ordered, SEARCH_LIMIT)
    ensures forall p :: p in r ==> p in posts && (Filters(q) ==> MatchesQuery(p, q.value))
    ensures |r| == if |Selected(q, posts)| < SEARCH_LIMIT then |Selected(q, posts)| else SEARCH_LIMIT
    ensures forall p, y :: p in Selected(q, posts) && p !in r && y in r ==> y.createdAt >= p.createdAt
    ensures multiset(r) <= multiset(Selected(q, posts))
  {
    var sel := Selected(q, posts);
    PrefixSubMultiset(r, ordered);
    assert |ordered| == |multiset(ordered)| == |sel|;
    forall p | p in r ensures p in posts && (Filters(q) ==> MatchesQuery(p, q.value)) {
      assert p in ordered;
      assert p in multiset(sel);
    }
    forall p, y | p in sel && p !in r && y in r ensures y.createdAt >= p.createdAt {
      assert p in multiset(ordered);
      var k :| 0 <= k < |ordered| && ordered[k] == p;
      var i :| 0 <= i < |r| && r[i] == y;
      assert k >= |r|;
      assert NewestPostFirst()(ordered[i], ordered[k]);
    }
  }

  // ---------------------------------------------------------------- delete

  /** `prisma.post.findUnique({ where: { id } })`. */
  function FindPost(posts: seq<Post>, id: int): (r: Option<Post>)
    ensures r.None? <==> forall p :: p in posts ==> p.id != id
    ensures r.Some? ==> r.value in posts && r.value.id == id
  {
    if posts == [] then None
    else if posts[0].id == id then Some(posts[0])
    else
      var r := FindPost(posts[1..], id);
      assert posts == [posts[0]] + posts[1..];
      r
  }

  /** The three deletes of the transaction: the post's comments, its likes
      and the post itself. */
  function CommentsAfterDelete(comments: seq<Comment>, postId: int): (r: seq<Comment>)
    ensures forall c :: c in r <==> c in comments && c.postId != postId
  {
    Filter(comments, (c: Comment) => c.postId != postId)
  }

  function LikesAfterDelete(likes: seq<Like>, postId: int): (r: seq<Like>)
    ensures forall l :: l in r <==> l in likes && l.postId != postId
  {
    Filter(likes, (l: Like) => l.postId != postId)
  }

  function PostsAfterDelete(posts: seq<Post>, postId: int): (r: seq<Post>)
    ensures forall p :: p in r <==> p in posts && p.id != postId
  {
    Filter(posts, (p: Post) => p.id != postId)
  }

  /** The cascade leaves every other post's like count as it was. */
  lemma DeleteKeepsOtherCounts(likes: seq<Like>, postId: int, other: int)
    requires other != postId
    ensures LikeCount(LikesAfterDelete(likes, postId), other) == LikeCount(likes, other)
  {
    FilterOfFilter(likes, (l: Like) => l.postId == other, (l: Like) => l.postId != postId);
  }
}
