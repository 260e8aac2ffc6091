/**
 * The request middleware: from whether the request carries a session token
 * and its path, decide between a redirect, passing an API request on, or
 * doing nothing. `config.matcher` selects the paths it runs on.
 */
module Middleware {
  import opened Strings

  datatype Action =
    | Redirect(location: string)  // NextResponse.redirect(new URL(location, request.url))
    | Next                        // NextResponse.next()
    | NoResponse                  // the function falls off its end

  const Dashboard := "/dashboard"
  const Home := "/home"

  /** `middleware(request)`, with the token reduced to whether one is present. */
  function Decide(hasToken: bool, pathname: string): (a: Action)
    ensures a.Redirect? ==> a.location == Dashboard || a.location == Home
    ensures hasToken ==> a != Redirect(Home)
    ensures !hasToken ==> a != Redirect(Dashboard)
  {
    if hasToken && (pathname == "/" || StartsWith(pathname, "/sign-in") ||
                    StartsWith(pathname, "/sign-up") || StartsWith(pathname, "/verify")) then
      Redirect(Dashboard)
    else if !hasToken && (StartsWith(pathname, "/dashboard") || StartsWith(pathname, "/verify")) then
      Redirect(Home)
    else if StartsWith(pathname, "/api") then
      Next
    else
      NoResponse
  }

  /** With a token, "/" and the sign-in, sign-up and verify pages send the user to the dashboard. */
  lemma SignedInLeavesAuthPages(pathname: string)
    requires pathname == "/" || StartsWith(pathname, "/sign-in") ||
             StartsWith(pathname, "/sign-up") || StartsWith(pathname, "/verify")
    ensures Decide(true, pathname) == Redirect(Dashboard)
  {
  }

  /** Without a token, the dashboard and verify pages send the visitor home. */
  lemma SignedOutLeavesProtectedPages(pathname: string)
    requires StartsWith(pathname, "/dashboard") || StartsWith(pathname, "/verify")
    ensures Decide(false, pathname) == Redirect(Home)
  {
  }

  /** Following a redirect with the same token status is not redirected again. */
  lemma NoRedirectLoop(hasToken: bool, pathname: string)
    ensures Decide(hasToken, pathname).Redirect? ==>
      !Decide(hasToken, Decide(hasToken, pathname).location).Redirect?
  {
    DiffersAt(Dashboard, "/sign-in", 1);
    DiffersAt(Dashboard, "/sign-up", 1);
    DiffersAt(Dashboard, "/verify", 1);
    DiffersAt(Home, "/dashboard", 1);
    DiffersAt(Home, "/verify", 1);
  }

  /** "/" is matched exactly: another path of the same start is not redirected for a token holder. */
  lemma RootMatchedExactly()
    ensures Decide(true, "/x") == NoResponse
  {
  }

  /** A request left alone gets `next()` exactly when its path starts with "/api". */
  lemma UnredirectedRequests(hasToken: bool, pathname: string)
    requires !Decide(hasToken, pathname).Redirect?
    ensures Decide(hasToken, pathname) == Next <==> StartsWith(pathname, "/api")
    ensures Decide(hasToken, pathname) == NoResponse <==> !StartsWith(pathname, "/api")
  {
  }

  /** "favicon", any one character, "ico" at the start of `s` (the `.` is a regex wildcard). */
  predicate FaviconLike(s: string)
  {
    |s| >= 11 && s[..7] == "favicon" && s[8..11] == "ico"
  }

  /**
   * `config.matcher` "/((?!api|_next|favicon.ico).*)": a path the middleware
   * runs on starts with '/' and what follows does not begin with "api",
   * "_next" or a favicon-like name.
   */
  predicate Matched(pathname: string)
  {
    && |pathname| >= 1 && pathname[0] == '/'
    && !StartsWith(pathname[1..], "api")
    && !StartsWith(pathname[1..], "_next")
    && !FaviconLike(pathname[1..])
  }

  /** The middleware never runs on a path starting with "/api", so its `next()` branch is never taken. */
  lemma MatchedNeverNext(hasToken: bool, pathname: string)
    requires Matched(pathname)
    ensures Decide(hasToken, pathname) != Next
  {
    assert |pathname| >= 4 ==> pathname[1..][..3] == pathname[..4][1..];
  }
}
