/** `app/middleware.ts`: the older guard that protects `/dashboard` and `/add` by
    verifying the `token` cookie as a JWT. Verification (secret, signature, expiry) is
    the predicate `verifies`. */
module AppGuard {

  import opened Results
  import opened Strings
  import opened Routing

  const ProtectedRoutes: seq<string> := ["/dashboard", "/add"]

  /** `protectedRoutes.some((route) => path.startsWith(route))`. */
  function AnyPrefix(routes: seq<string>, path: string): (found: bool)
    ensures found <==> exists i :: 0 <= i < |routes| && StartsWith(path, routes[i])
  {
    if routes == [] then false
    else StartsWith(path, routes[0]) || AnyPrefix(routes[1..], path)
  }

  predicate IsProtected(path: string) {
    AnyPrefix(ProtectedRoutes, path)
  }

  /** `middleware(req)`: an unprotected path passes; a protected one passes exactly when
      the token is present and verifies, and otherwise goes to /login. */
  function Route(path: string, token: Option<string>, verifies: string -> bool): (d: Decision)
    ensures !(StartsWith(path, "/dashboard") || StartsWith(path, "/add")) ==> d == Next
    ensures (StartsWith(path, "/dashboard") || StartsWith(path, "/add")) ==>
      (d == Next <==> HasToken(token) && verifies(token.value))
    ensures d.Redirect? ==> d.location == LoginPage
  {
    assert ProtectedRoutes[0] == "/dashboard" && ProtectedRoutes[1] == "/add";
    if IsProtected(path) then
      if !HasToken(token) then Redirect(LoginPage)
      else if verifies(token.value) then Next
      else Redirect(LoginPage)
    else Next
  }

  /** A path-to-regexp pattern `base/:path*`: the base itself or the base followed by
      further segments. */
  predicate SegmentsUnder(path: string, base: string) {
    path == base || StartsWith(path, base + "/")
  }

  /** A path under a base starts with the base. */
  lemma UnderStartsWith(path: string, base: string)
    requires SegmentsUnder(path, base)
    ensures StartsWith(path, base)
  {
    if path != base {
      PrefixTrans(path, base + "/", base);
    }
  }

  /** `config.matcher: ['/api/dashboard/:path*', '/add/:path*']`. */
  predicate Matcher(path: string) {
    SegmentsUnder(path, "/api/dashboard") || SegmentsUnder(path, "/add")
  }

  /** The request as a whole: the middleware runs only on matched paths. Of the two
      protected prefixes only `/add` is matched, so `/add` paths without a verified token
      are the only requests ever redirected, and `/dashboard` is never guarded here. */
  function Handle(path: string, token: Option<string>, verifies: string -> bool): (d: Decision)
    ensures d.Redirect? <==> SegmentsUnder(path, "/add") && !(HasToken(token) && verifies(token.value))
    ensures d.Redirect? ==> d.location == LoginPage
  {
    if Matcher(path) then
      MatchedRoute(path, token, verifies);
      Route(path, token, verifies)
    else Next
  }

  /** On a matched path the guard redirects exactly the unverified `/add` requests. */
  lemma MatchedRoute(path: string, token: Option<string>, verifies: string -> bool)
    requires Matcher(path)
    ensures Route(path, token, verifies).Redirect? <==>
      SegmentsUnder(path, "/add") && !(HasToken(token) && verifies(token.value))
  {
    if SegmentsUnder(path, "/api/dashboard") {
      UnderStartsWith(path, "/api/dashboard");
      PrefixTrans(path, "/api/dashboard", "/api");
      PrefixesClash(path, "/api", "/dashboard", 1);
      PrefixesClash(path, "/api", "/add", 2);
    } else {
      UnderStartsWith(path, "/add");
    }
  }

  /** The matcher sends `/api/dashboard/...` here, yet no such path starts with a
      protected prefix, so those requests always pass whatever the token. */
  lemma ApiDashboardAlwaysPasses(path: string, token: Option<string>, verifies: string -> bool)
    requires SegmentsUnder(path, "/api/dashboard")
    ensures Matcher(path)
    ensures Handle(path, token, verifies) == Next
  {
    UnderStartsWith(path, "/api/dashboard");
    PrefixTrans(path, "/api/dashboard", "/api");
    PrefixesClash(path, "/api", "/add", 2);
  }

  /** Under `/add` the guard is in force: it passes exactly the verified tokens. */
  lemma AddIsGuarded(path: string, token: Option<string>, verifies: string -> bool)
    requires SegmentsUnder(path, "/add")
    ensures Handle(path, token, verifies) == Next <==> HasToken(token) && verifies(token.value)
  {
  }
}
