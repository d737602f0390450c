/**
 * Display defaults for a user: the username and avatar shown when the
 * profile has none, and the trimmed-down user object the pages render.
 */
module UserUtils {
  import opened Wrappers
  import opened Schema
  import opened Http
  import Text

  /** The avatar given to a user who has not chosen one. */
  const DEFAULT_PROFILE_IMAGE: string := "/globe.svg"

  /** The username given to a user who has not chosen one: `Nuser${id}`. */
  function DefaultUsername(id: nat): (name: string)
    ensures |name| > 5 && name[..5] == "Nuser" && Text.IsDigits(name[5..])
    ensures Text.ParseDigits(name[5..]) == id
  {
    var digits := Text.NatToString(id);
    Text.ParseNatToString(id);
    assert ("Nuser" + digits)[5..] == digits;
    "Nuser" + digits
  }

  /** Two users never share a default username. */
  lemma DefaultUsernameInjective(m: nat, n: nat)
    requires DefaultUsername(m) == DefaultUsername(n)
    ensures m == n
  {
    assert DefaultUsername(m)[5..] == DefaultUsername(n)[5..];
  }

  /** A user together with the profile the store holds for it, if any. */
  datatype UserWithProfile = UserWithProfile(user: User, profile: Option<Profile>)

  /** What the pages may show of a user: no email, no password. */
  datatype SafeUser = SafeUser(id: nat, username: string, profileImage: string)

  /** `user.profile?.username || \`Nuser${user.id}\``: the chosen username
      when there is a non-empty one, the default otherwise; never empty. */
  function DisplayUsername(u: UserWithProfile): (name: string)
    ensures name != ""
    ensures u.profile.Some? && IsText(u.profile.value.username) ==> name == u.profile.value.username.value
    ensures !(u.profile.Some? && IsText(u.profile.value.username)) ==> name == DefaultUsername(u.user.id)
  {
    if u.profile.Some? && IsText(u.profile.value.username) then u.profile.value.username.value
    else DefaultUsername(u.user.id)
  }

  /** `user.profile?.profileImage || '/globe.svg'`: never empty. */
  function ProfileImage(u: UserWithProfile): (image: string)
    ensures image != ""
    ensures u.profile.Some? && IsText(u.profile.value.profileImage) ==> image == u.profile.value.profileImage.value
    ensures !(u.profile.Some? && IsText(u.profile.value.profileImage)) ==> image == DEFAULT_PROFILE_IMAGE
  {
    if u.profile.Some? && IsText(u.profile.value.profileImage) then u.profile.value.profileImage.value
    else DEFAULT_PROFILE_IMAGE
  }

  /** `transformUserToSafe`: throws when there is no user. */
  datatype SafeOutcome = Throws(error: string) | Returns(safe: SafeUser)

  function TransformUserToSafe(u: Option<UserWithProfile>): (r: SafeOutcome)
    ensures u.None? <==> r.Throws?
    ensures r.Throws? ==> r.error == "User is required"
    ensures r.Returns? ==> && r.safe.id == u.value.user.id
                           && r.safe.username == DisplayUsername(u.value)
                           && r.safe.profileImage == ProfileImage(u.value)
                           && r.safe.username != "" && r.safe.profileImage != ""
  {
    match u
    case None => Throws("User is required")
    case Some(v) => Returns(SafeUser(v.user.id, DisplayUsername(v), ProfileImage(v)))
  }

  /** `getAvatarLetter`: the first character of the display username,
      upper-cased; 'N' (from `Nuser`) when the user has no username. */
  function AvatarLetter(u: UserWithProfile): (letter: string)
    ensures |letter| == 1 && letter[0] == Text.UpperChar(DisplayUsername(u)[0])
    ensures !(u.profile.Some? && IsText(u.profile.value.username)) ==> letter == "N"
  {
    [Text.UpperChar(DisplayUsername(u)[0])]
  }
}
