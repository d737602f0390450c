/**
 * The user search behind the search box and the chat's "new conversation"
 * picker.
 */
module UserSearch {
  import opened Wrappers
  import opened Schema
  import opened Http
  import opened Query
  import Text
  import Accounts

  const USER_LIMIT: nat := 10

  /** A user row with its profile, as `include: { profile }` returns it. */
  datatype Found = Found(user: User, profile: Option<Profile>)

  /** Every user joined with its profile, in table order. */
  function Joined(users: seq<User>, profiles: seq<Profile>): (r: seq<Found>)
    ensures |r| == |users|
    ensures forall i :: 0 <= i < |users| ==> r[i] == Found(users[i], Accounts.FindProfile(profiles, users[i].id))
  {
    seq(|users|, i requires 0 <= i < |users| => Found(users[i], Accounts.FindProfile(profiles, users[i].id)))
  }

  /** The `profile.username` column of the join: null without a profile. */
  function UsernameOf(f: Found): Option<string> {
    if f.profile.Some? then f.profile.value.username else None
  }

  /** `orderBy: [{ profile: { username: 'asc' } }, { email: 'asc' }]`, nulls
      sorting after every username as PostgreSQL does for an ascending
      column. */
  predicate UsernameThenEmail(a: Found, b: Found) {
    var ua, ub := UsernameOf(a), UsernameOf(b);
    if ua == ub then Text.LexLe(a.user.email, b.user.email)
    else if ua.None? then false
    else if ub.None? then true
    else Text.LexLe(ua.value, ub.value)
  }

  function ByUsernameThenEmail(): (Found, Found) -> bool {
    (a: Found, b: Found) => UsernameThenEmail(a, b)
  }

  lemma ByUsernameThenEmailOrders()
    ensures TotalPreorder(ByUsernameThenEmail())
  {
    forall a: Found, b: Found ensures UsernameThenEmail(a, b) || UsernameThenEmail(b, a) {
      Text.LexLeTotal(a.user.email, b.user.email);
      if UsernameOf(a).Some? && UsernameOf(b).Some? {
        Text.LexLeTotal(UsernameOf(a).value, UsernameOf(b).value);
      }
    }
    forall a: Found, b: Found, c: Found | UsernameThenEmail(a, b) && UsernameThenEmail(b, c)
      ensures UsernameThenEmail(a, c)
    {
      UsernameThenEmailTransitive(a, b, c);
    }
  }

  lemma UsernameThenEmailTransitive(a: Found, b: Found, c: Found)
    requires UsernameThenEmail(a, b) && UsernameThenEmail(b, c)
    ensures UsernameThenEmail(a, c)
  {
    var ua, ub, uc := UsernameOf(a), UsernameOf(b), UsernameOf(c);
    if ua == ub && ub == uc {
      Text.LexLeTransitive(a.user.email, b.user.email, c.user.email);
    } else if ua.Some? && ub.Some? && uc.Some? && ua != ub && ub != uc {
      Text.LexLeTransitive(ua.value, ub.value, uc.value);
      if ua == uc {
        Text.LexLeAntisymmetric(ua.value, ub.value);
      }
    }
  }

  /** The email, or the username when there is one, contains `q`, ignoring
      case. */
  predicate MatchesUser(f: Found, q: string) {
    Text.ContainsInsensitive(f.user.email, q)
    || (UsernameOf(f).Some? && Text.ContainsInsensitive(UsernameOf(f).value, q))
  }

  /** `excludeId ? parseInt(excludeId) : undefined` is truthy: a number
      other than 0. */
  predicate Excludes(excludeId: QueryParam, f: Found) {
    IsIdParam(excludeId) && f.user.id == excludeId.n
  }

  /** The users the `where` selects for the trimmed query `q`. */
  function Candidates(q: string, excludeId: QueryParam, users: seq<User>, profiles: seq<Profile>): seq<Found> {
    Filter(Joined(users, profiles), (f: Found) => !Excludes(excludeId, f) && MatchesUser(f, q))
  }

  /** GET /api/users/search?q=&excludeId=: 400 when `q` is missing or empty;
      otherwise the first ten, by username then email, of the users other
      than the excluded one whose email or username contains the trimmed
      query, ignoring case. */
  function SearchUsers(q: Option<string>, excludeId: QueryParam, users: seq<User>, profiles: seq<Profile>)
    : (r: Reply<seq<Found>>)
    ensures r.Error? <==> !IsText(q)
    ensures r.Error? ==> r.status == BAD_REQUEST
    ensures r.Ok? ==>
              var cs := Candidates(Text.Trim(q.value), excludeId, users, profiles);
              && |r.body| == (if |cs| < USER_LIMIT then |cs| else USER_LIMIT)
              && SortedBy(r.body, ByUsernameThenEmail())
              && (forall f :: f in r.body ==>
                    && f.user in users && f.profile == Accounts.FindProfile(profiles, f.user.id)
                    && !Excludes(excludeId, f) && MatchesUser(f, Text.Trim(q.value)))
              && (forall f, g :: f in cs && f !in r.body && g in r.body ==> UsernameThenEmail(g, f))
              && multiset(r.body) <= multiset(cs)
  {
    if !IsText(q) then Error(BAD_REQUEST)
    else
      var cs := Candidates(Text.Trim(q.value), excludeId, users, profiles);
      ByUsernameThenEmailOrders();
      var ordered := SortBy(cs, ByUsernameThenEmail());
      var r := Take(ordered, USER_LIMIT);
      TakeSorted(ordered, USER_LIMIT, ByUsernameThenEmail());
      SearchFacts(Text.Trim(q.value), excludeId, users, profiles, ordered, r);
      Ok(r)
  }

  lemma SearchFacts(q: string, excludeId: QueryParam, users: seq<User>, profiles: seq<Profile>,
                    ordered: seq<Found>, r: seq<Found>)
    requires SortedBy(ordered, ByUsernameThenEmail())
    requires multiset(ordered) == multiset(Candidates(q, excludeId, users, profiles))
    requires r == Take(ordered, USER_LIMIT)
    ensures var cs := Candidates(q, excludeId, users, profiles);
            && |r| == (if |cs| < USER_LIMIT then |cs| else USER_LIMIT)
            && (forall f :: f in r ==>
                  && f.user in users && f.profile == Accounts.FindProfile(profiles, f.user.id)
                  && !Excludes(excludeId, f) && MatchesUser(f, q))
            && (forall f, g :: f in cs && f !in r && g in r ==> UsernameThenEmail(g, f))
            && multiset(r) <= multiset(cs)
  {
    var cs := Candidates(q, excludeId, users, profiles);
    PrefixSubMultiset(r, ordered);
    var js := Joined(users, profiles);
    assert |ordered| == |multiset(ordered)| == |cs|;
    assert forall f :: f in cs <==> f in multiset(cs);
    forall f | f in r
      ensures f.user in users && f.profile == Accounts.FindProfile(profiles, f.user.id)
      ensures !Excludes(excludeId, f) && MatchesUser(f, q)
    {
      assert f in ordered;
      assert f in multiset(cs);
      var i :| 0 <= i < |js| && js[i] == f;
      assert users[i] == f.user;
    }
    forall f, g | f in cs && f !in r && g in r ensures UsernameThenEmail(g, f) {
      assert f in multiset(ordered);
      var k :| 0 <= k < |ordered| && ordered[k] == f;
      var i :| 0 <= i < |r| && r[i] == g;
      assert k >= |r|;
      assert ByUsernameThenEmail()(ordered[i], ordered[k]);
    }
  }

  /** The query is trimmed first: white space around it changes nothing. */
  lemma SearchTrimsQuery(q: string, excludeId: QueryParam, users: seq<User>, profiles: seq<Profile>)
    requires Text.Trim(q) != ""
    ensures SearchUsers(Some(q), excludeId, users, profiles)
            == SearchUsers(Some(Text.Trim(q)), excludeId, users, profiles)
  {
    Text.TrimIdempotent(q);
  }

  /** A query of white space only passes the check (it is not empty) and is
      trimmed to the empty string, which every email contains: every user
      but the excluded one is a candidate. */
  lemma BlankQuerySelectsEveryone(q: string, excludeId: QueryParam, users: seq<User>, profiles: seq<Profile>)
    requires Text.IsBlank(q)
    ensures forall f :: f in Joined(users, profiles) && !Excludes(excludeId, f) ==>
              f in Candidates(Text.Trim(q), excludeId, users, profiles)
  {
    forall f | f in Joined(users, profiles) && !Excludes(excludeId, f)
      ensures MatchesUser(f, Text.Trim(q))
    {
      Text.ContainsEmpty(Text.Lower(f.user.email));
    }
  }
}
