/** The request gate in front of every page: public routes pass, every
    other route needs a non-empty session cookie or is sent to the login. */
module Middleware {

  import opened Wrappers
  import opened Records

  /** Routes reachable without a session, matched as path prefixes. */
  const PublicRoutes: seq<string> := ["/login", "/api/auth", "/pending-confirmation"]

  /** What the middleware answers: pass the request on, or redirect. */
  datatype Response = Next | RedirectTo(path: string)

  predicate StartsWith(path: string, prefix: string) {
    |prefix| <= |path| && path[..|prefix|] == prefix
  }

  /** Some public route is a prefix of the path (`some(startsWith)`). */
  predicate IsPublicRoute(path: string) {
    exists k :: 0 <= k < |PublicRoutes| && StartsWith(path, PublicRoutes[k])
  }

  /** `middleware`, given the request's path and the value of its session
      cookie, absent when the request has none. */
  function Gate(path: string, sessionCookie: Option<string>): (r: Response)
    ensures IsPublicRoute(path) ==> r == Next
    ensures !IsPublicRoute(path) && (sessionCookie.None? || sessionCookie.value == "") ==> r == RedirectTo(LoginPath)
    ensures r == Next <==> IsPublicRoute(path) || (sessionCookie.Some? && sessionCookie.value != "")
  {
    if IsPublicRoute(path) then Next
    else if sessionCookie.None? || sessionCookie.value == "" then RedirectTo(LoginPath)
    else Next
  }

  /** The login page is public, so following a redirect never redirects
      again: the gate cannot loop. */
  lemma RedirectCannotLoop(path: string, sessionCookie: Option<string>, nextCookie: Option<string>)
    ensures Gate(path, sessionCookie).RedirectTo? ==>
      Gate(Gate(path, sessionCookie).path, nextCookie) == Next
  {
    assert StartsWith(LoginPath, PublicRoutes[0]);
  }

  /** The match is by prefix only: "/loginx" and "/api/authentic" pass
      without a cookie, while "/" and "/log" do not. */
  lemma PrefixMatchExamples()
    ensures Gate("/loginx", None) == Next
    ensures Gate("/api/authentic", None) == Next
    ensures Gate("/", None) == RedirectTo(LoginPath)
    ensures Gate("/log", Some("")) == RedirectTo(LoginPath)
    ensures Gate("/log", Some("token")) == Next
  {
    assert StartsWith("/loginx", PublicRoutes[0]);
    assert StartsWith("/api/authentic", PublicRoutes[1]);
    assert !StartsWith("/", PublicRoutes[0]) && !StartsWith("/", PublicRoutes[1]) && !StartsWith("/", PublicRoutes[2]);
    assert !StartsWith("/log", PublicRoutes[0]) && !StartsWith("/log", PublicRoutes[1]) && !StartsWith("/log", PublicRoutes[2]);
  }
}
