/**
 * Accounts: the profile each user has (created lazily, on registration or
 * by the migration, with the same defaults), the partial profile update,
 * and the login decision.
 */
module Accounts {
  import opened Wrappers
  import opened Schema
  import opened Http
  import opened Query
  import UserUtils

  /** `prisma.user.findUnique({ where: { id } })`. */
  function FindUserById(users: seq<User>, id: int): (r: Option<User>)
    ensures r.None? <==> forall u :: u in users ==> u.id != id
    ensures r.Some? ==> r.value in users && r.value.id == id
  {
    if users == [] then None
    else if users[0].id == id then Some(users[0])
    else
      var r := FindUserById(users[1..], id);
      assert users == [users[0]] + users[1..];
      r
  }

  /** The profile of user `uid`: `user.profile`, or `where: { userid }`. */
  function FindProfile(profiles: seq<Profile>, uid: int): (r: Option<Profile>)
    ensures r.None? <==> forall p :: p in profiles ==> p.userId != uid
    ensures r.Some? ==> r.value in profiles && r.value.userId == uid
  {
    if profiles == [] then None
    else if profiles[0].userId == uid then Some(profiles[0])
    else
      var r := FindProfile(profiles[1..], uid);
      assert profiles == [profiles[0]] + profiles[1..];
      r
  }

  /** No user has two profiles (`userid` is unique). */
  predicate OneProfilePerUser(profiles: seq<Profile>) {
    forall i, j :: 0 <= i < j < |profiles| ==> profiles[i].userId != profiles[j].userId
  }

  /** The profile every route creates for a user who has none: `Nuser<id>`,
      the globe avatar and no bio. It shows exactly as no profile does. */
  function DefaultProfile(id: nat): (p: Profile)
    ensures p.userId == id && p.bio.None?
    ensures p.username == Some(UserUtils.DefaultUsername(id))
    ensures p.profileImage == Some(UserUtils.DEFAULT_PROFILE_IMAGE)
    ensures forall u: User :: u.id == id ==>
              && UserUtils.DisplayUsername(UserUtils.UserWithProfile(u, Some(p)))
                 == UserUtils.DisplayUsername(UserUtils.UserWithProfile(u, None))
              && UserUtils.ProfileImage(UserUtils.UserWithProfile(u, Some(p)))
                 == UserUtils.ProfileImage(UserUtils.UserWithProfile(u, None))
  {
    Profile(id, Some(UserUtils.DefaultUsername(id)), Some(UserUtils.DEFAULT_PROFILE_IMAGE), None)
  }

  /** `value || undefined` in an update: a truthy new value replaces the old
      one, anything else leaves it. */
  function Keep(current: Option<string>, given: Option<string>): (r: Option<string>)
    ensures IsText(given) ==> r == given
    ensures !IsText(given) ==> r == current
  {
    if IsText(given) then given else current
  }

  /** The `update` branch of the profile upsert. */
  function UpdateProfile(p: Profile, username: Option<string>, profileImage: Option<string>, bio: Option<string>)
    : (r: Profile)
    ensures r.userId == p.userId
    ensures r.username == (if IsText(username) then username else p.username)
    ensures r.profileImage == (if IsText(profileImage) then profileImage else p.profileImage)
    ensures r.bio == (if IsText(bio) then bio else p.bio)
  {
    p.(username := Keep(p.username, username), profileImage := Keep(p.profileImage, profileImage),
       bio := Keep(p.bio, bio))
  }

  /** Sending the same update twice is sending it once, and an update of
      empty or missing values changes nothing. */
  lemma UpdateProfileIdempotent(p: Profile, username: Option<string>, profileImage: Option<string>, bio: Option<string>)
    ensures var once := UpdateProfile(p, username, profileImage, bio);
            UpdateProfile(once, username, profileImage, bio) == once
    ensures UpdateProfile(p, Some(""), None, Some("")) == p
  {
  }

  /** `prisma.userProfile.upsert({ where: { userid }, update, create })`
      over the table: the user's profile updated when there is one, a new
      profile with the values as given appended otherwise. */
  function UpsertProfile(profiles: seq<Profile>, uid: int, username: Option<string>, profileImage: Option<string>,
                         bio: Option<string>): (r: seq<Profile>)
    ensures FindProfile(profiles, uid).Some? ==> |r| == |profiles|
    ensures FindProfile(profiles, uid).None? ==> r == profiles + [Profile(uid, username, profileImage, bio)]
    ensures forall i :: 0 <= i < |profiles| ==>
              r[i] == if profiles[i].userId == uid then UpdateProfile(profiles[i], username, profileImage, bio)
                      else profiles[i]
  {
    if FindProfile(profiles, uid).Some? then
      seq(|profiles|, i requires 0 <= i < |profiles| =>
        if profiles[i].userId == uid then UpdateProfile(profiles[i], username, profileImage, bio) else profiles[i])
    else profiles + [Profile(uid, username, profileImage, bio)]
  }

  /** After an upsert the user has exactly one profile, holding the given
      values where they are truthy, and no other user's profile changed. */
  lemma UpsertKeepsOneProfile(profiles: seq<Profile>, uid: int, username: Option<string>,
                              profileImage: Option<string>, bio: Option<string>)
    requires OneProfilePerUser(profiles)
    ensures var r := UpsertProfile(profiles, uid, username, profileImage, bio);
            && OneProfilePerUser(r)
            && FindProfile(r, uid) == Some(match FindProfile(profiles, uid)
                                           case Some(p) => UpdateProfile(p, username, profileImage, bio)
                                           case None => Profile(uid, username, profileImage, bio))
            && (forall v :: v != uid ==> FindProfile(r, v) == FindProfile(profiles, v))
  {
    var r := UpsertProfile(profiles, uid, username, profileImage, bio);
    if FindProfile(profiles, uid).Some? {
      forall v ensures FindProfile(r, v) == FindProfile(profiles, v) || v == uid {
        FindProfilePointwise(profiles, r, uid, v);
      }
      FindProfilePointwise(profiles, r, uid, uid);
    } else {
      forall v | v != uid ensures FindProfile(r, v) == FindProfile(profiles, v) {
        FindProfileAppend(profiles, Profile(uid, username, profileImage, bio), v);
      }
      FindProfileAppend(profiles, Profile(uid, username, profileImage, bio), uid);
      forall i, j | 0 <= i < j < |r| ensures r[i].userId != r[j].userId {
        if j == |profiles| { assert r[i] in profiles; }
      }
    }
  }

  /** Looking up a user in a table where only `uid`'s profile was updated. */
  lemma {:induction false} FindProfilePointwise(profiles: seq<Profile>, r: seq<Profile>, uid: int, v: int)
    requires |r| == |profiles|
    requires forall i :: 0 <= i < |profiles| ==> r[i].userId == profiles[i].userId
    requires forall i :: 0 <= i < |profiles| && profiles[i].userId != uid ==> r[i] == profiles[i]
    ensures v != uid ==> FindProfile(r, v) == FindProfile(profiles, v)
    ensures FindProfile(r, v).Some? <==> FindProfile(profiles, v).Some?
    ensures OneProfilePerUser(profiles) ==> OneProfilePerUser(r)
    ensures v == uid && FindProfile(profiles, v).Some? ==>
              exists i :: 0 <= i < |profiles| && profiles[i] == FindProfile(profiles, v).value && r[i] == FindProfile(r, v).value
  {
    if profiles != [] {
      FindProfilePointwise(profiles[1..], r[1..], uid, v);
      if profiles[0].userId != v {
        var t := FindProfile(profiles[1..], v);
        if t.Some? && v == uid {
          var i :| 0 <= i < |profiles[1..]| && profiles[1..][i] == t.value && r[1..][i] == FindProfile(r[1..], v).value;
          assert profiles[i + 1] == t.value && r[i + 1] == FindProfile(r, v).value;
        }
      }
    }
  }

  /** Looking up a profile after one is appended. */
  lemma {:induction false} FindProfileAppend(profiles: seq<Profile>, p: Profile, v: int)
    ensures FindProfile(profiles + [p], v)
            == if FindProfile(profiles, v).Some? then FindProfile(profiles, v)
               else if p.userId == v then Some(p) else None
  {
    if profiles != [] {
      assert (profiles + [p])[1..] == profiles[1..] + [p];
      FindProfileAppend(profiles[1..], p, v);
    } else {
      assert ([p])[1..] == [];
    }
  }

  /** The users the migration finds: `where: { profile: null }`, in table
      order. */
  function UsersWithoutProfile(users: seq<User>, profiles: seq<Profile>): (r: seq<User>)
    ensures forall u :: u in r <==> u in users && FindProfile(profiles, u.id).None?
    ensures |r| <= |users|
    ensures IsSubsequence(r, users)
  {
    var lacksProfile := (u: User) => FindProfile(profiles, u.id).None?;
    FilterIsSubsequence(users, lacksProfile);
    Filter(users, lacksProfile)
  }

  /** The profiles the migration creates, one per user found. */
  function DefaultProfiles(users: seq<User>): (r: seq<Profile>)
    ensures |r| == |users|
    ensures forall i :: 0 <= i < |users| ==> r[i] == DefaultProfile(users[i].id)
  {
    seq(|users|, i requires 0 <= i < |users| => DefaultProfile(users[i].id))
  }

  /** After the migration's inserts every user has a profile and nobody
      lacks one, so a second run finds no one. */
  lemma {:induction false} MigrationCoversEveryone(users: seq<User>, profiles: seq<Profile>)
    ensures var after := profiles + DefaultProfiles(UsersWithoutProfile(users, profiles));
            && (forall u :: u in users ==> FindProfile(after, u.id).Some?)
            && UsersWithoutProfile(users, after) == []
  {
    var missing := UsersWithoutProfile(users, profiles);
    var after := profiles + DefaultProfiles(missing);
    forall u | u in users ensures FindProfile(after, u.id).Some? {
      CoveredAfterMigration(profiles, missing, u);
    }
    FilterNone(users, (u: User) => FindProfile(after, u.id).None?);
  }

  /** A user either had a profile, which stays, or was among the users
      found, whose defaults are appended. */
  lemma CoveredAfterMigration(profiles: seq<Profile>, missing: seq<User>, u: User)
    requires FindProfile(profiles, u.id).None? ==> u in missing
    ensures FindProfile(profiles + DefaultProfiles(missing), u.id).Some?
  {
    var after := profiles + DefaultProfiles(missing);
    if FindProfile(profiles, u.id).None? {
      var i :| 0 <= i < |missing| && missing[i] == u;
      assert after[|profiles| + i] == DefaultProfile(u.id);
      assert after[|profiles| + i] in after;
    } else {
      assert FindProfile(profiles, u.id).value in after;
    }
  }

  /** The login decision. */
  datatype LoginResult =
    | LoginFailure(error: string, field: string, status: int)
    | LoginSuccess(status: int, user: User, profile: Option<Profile>)

  /** `login(email, password)`: 401 on the email field for an unknown
      email, 401 on the password field when `matches` (bcrypt's compare)
      rejects the password against the stored hash, otherwise 200 with the
      user and its profile. */
  function Login(email: string, password: string, users: seq<User>, profiles: seq<Profile>,
                 matches: (string, string) -> bool): (r: LoginResult)
    ensures FindUserByEmail(users, email).None? ==> r == LoginFailure("Invalid email", "email", UNAUTHORIZED)
    ensures r.LoginFailure? ==> r.status == UNAUTHORIZED && (r.field == "password" <==> FindUserByEmail(users, email).Some?)
    ensures r.LoginSuccess? <==> FindUserByEmail(users, email).Some?
                                 && matches(password, FindUserByEmail(users, email).value.password)
    ensures r.LoginSuccess? ==> && r.status == OK && r.user in users && r.user.email == email
                                && r.profile == FindProfile(profiles, r.user.id)
  {
    match FindUserByEmail(users, email)
    case None => LoginFailure("Invalid email", "email", UNAUTHORIZED)
    case Some(u) =>
      if !matches(password, u.password) then LoginFailure("Wrong password", "password", UNAUTHORIZED)
      else LoginSuccess(OK, u, FindProfile(profiles, u.id))
  }
}
