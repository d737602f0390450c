/**
 * The route guard run before every page: static assets and API calls pass,
 * signed-out visitors are sent to the login page, signed-in users are kept
 * away from the login and register pages.
 */
module Middleware {
  import opened Wrappers
  import opened Http
  import Text

  datatype Decision = Next | Redirect(pathname: string)

  /** Requests the guard never looks at. */
  predicate IsBypassed(pathname: string) {
    || Text.StartsWith(pathname, "/_next/")
    || Text.StartsWith(pathname, "/images/")
    || Text.StartsWith(pathname, "/api/")
    || Text.Contains(pathname, ".")
  }

  predicate IsAuthPage(pathname: string) {
    pathname in ["/login", "/register"]
  }

  /** The `userEmail` cookie is set and not empty; logging out sets it to
      the empty string. */
  predicate SignedIn(cookie: Option<string>) {
    IsText(cookie)
  }

  /** `middleware(request)`. */
  function Decide(pathname: string, cookie: Option<string>): (d: Decision)
    ensures IsBypassed(pathname) ==> d == Next
    ensures !IsBypassed(pathname) && !SignedIn(cookie) && !IsAuthPage(pathname) ==> d == Redirect("/login")
    ensures !IsBypassed(pathname) && SignedIn(cookie) && IsAuthPage(pathname) ==> d == Redirect("/home")
    ensures d.Redirect? <==> !IsBypassed(pathname) && (SignedIn(cookie) <==> IsAuthPage(pathname))
  {
    if IsBypassed(pathname) then Next
    else if !SignedIn(cookie) && !IsAuthPage(pathname) then Redirect("/login")
    else if SignedIn(cookie) && IsAuthPage(pathname) then Redirect("/home")
    else Next
  }

  /** An empty cookie is treated exactly as no cookie. */
  lemma EmptyCookieIsSignedOut(pathname: string)
    ensures Decide(pathname, Some("")) == Decide(pathname, None)
  {
  }

  /** Following a redirect with the same cookie is let through: the guard
      never redirects in a loop. */
  lemma NoRedirectLoop(pathname: string, cookie: Option<string>)
    requires Decide(pathname, cookie).Redirect?
    ensures Decide(Decide(pathname, cookie).pathname, cookie) == Next
  {
    RedirectTargetsAreGuarded();
  }

  /** Neither redirect target has a dot or a bypassed prefix: the guard
      looks at both. */
  lemma RedirectTargetsAreGuarded()
    ensures !IsBypassed("/login") && !IsBypassed("/home")
  {
    Text.NotContainsChar("/login", '.');
    Text.NotContainsChar("/home", '.');
    assert !Text.StartsWith("/login", "/_next/") && !Text.StartsWith("/login", "/images/") && !Text.StartsWith("/login", "/api/");
    assert !Text.StartsWith("/home", "/_next/") && !Text.StartsWith("/home", "/images/") && !Text.StartsWith("/home", "/api/");
  }
}
