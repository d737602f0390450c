/**
 * What the route handlers see of a request: JSON body fields, query-string
 * parameters and the `userEmail` cookie, and the status codes they answer
 * with.
 */
module Http {
  import opened Wrappers
  import opened Schema

  const OK := 200
  const CREATED := 201
  const BAD_REQUEST := 400
  const UNAUTHORIZED := 401
  const FORBIDDEN := 403
  const NOT_FOUND := 404
  const CONFLICT := 409
  const SERVER_ERROR := 500

  /** A reply: an error status, or a body sent with status 200. */
  datatype Reply<+T> = Error(status: int) | Ok(body: T)

  /** A query-string parameter: missing, the empty string, text that does
      not read as a number, or text that reads as the number `n`. */
  datatype QueryParam = Absent | Empty | NonNumeric | Numeric(n: int)

  /** JavaScript's `Number(searchParams.get(name))`; None stands for NaN. */
  function NumberOf(p: QueryParam): (r: Option<int>)
    ensures r.None? <==> p.NonNumeric?
    ensures p.Absent? || p.Empty? ==> r == Some(0)
  {
    match p
    case Absent => Some(0)
    case Empty => Some(0)
    case NonNumeric => None
    case Numeric(n) => Some(n)
  }

  /** The parameter as a string is truthy: present and not empty. */
  predicate IsPresent(p: QueryParam) {
    !p.Absent? && !p.Empty?
  }

  /** An id read from the query string is truthy: a number other than 0. */
  predicate IsIdParam(p: QueryParam) {
    p.Numeric? && p.n != 0
  }

  /** An id field of a JSON body is truthy: present and not 0. */
  predicate IsId(x: Option<int>) {
    x.Some? && x.value != 0
  }

  /** A string field or cookie is truthy: present and not empty. */
  predicate IsText(x: Option<string>) {
    x.Some? && x.value != ""
  }

  /** Who the `userEmail` cookie names. */
  datatype Session = SignedOut | UnknownUser | SignedIn(user: User)

  /** `prisma.user.findUnique({ where: { email } })`. */
  function FindUserByEmail(users: seq<User>, email: string): (r: Option<User>)
    ensures r.Some? ==> r.value in users && r.value.email == email
    ensures r.None? ==> forall u :: u in users ==> u.email != email
  {
    if users == [] then None
    else if users[0].email == email then Some(users[0])
    else FindUserByEmail(users[1..], email)
  }

  /** The cookie check that opens the like, delete and notification
      routes: no cookie or an empty one (what logging out leaves) is
      signed out; otherwise the user with that email, if any. */
  function CurrentUser(users: seq<User>, cookie: Option<string>): (s: Session)
    ensures s.SignedOut? <==> !IsText(cookie)
    ensures s.SignedIn? ==> s.user in users && cookie == Some(s.user.email)
    ensures s.UnknownUser? ==> IsText(cookie) && forall u :: u in users ==> u.email != cookie.value
  {
    if !IsText(cookie) then SignedOut
    else
      match FindUserByEmail(users, cookie.value)
      case None => UnknownUser
      case Some(u) => SignedIn(u)
  }

  /** The status a failed session check answers with. */
  function SessionStatus(s: Session): (status: int)
    requires !s.SignedIn?
    ensures s.SignedOut? ==> status == UNAUTHORIZED
    ensures s.UnknownUser? ==> status == NOT_FOUND
  {
    if s.SignedOut? then UNAUTHORIZED else NOT_FOUND
  }
}
