/** The root `middleware.ts`: page routing by the presence of a `token` cookie, and the
    `config.matcher` pattern that decides which paths reach it. */
module PageGuard {

  import opened Results
  import opened Strings
  import opened Routing

  /** Login and signup pages, by prefix. */
  predicate IsAuthPage(path: string) {
    StartsWith(path, LoginPage) || StartsWith(path, SignupPage)
  }

  predicate IsApiRoute(path: string) {
    StartsWith(path, "/api")
  }

  /** `middleware(request)`: API routes pass; without a token every other non-auth page
      goes to /login; with a token the auth pages go to /dashboard; the rest pass. */
  function Route(path: string, token: Option<string>): (d: Decision)
    ensures IsApiRoute(path) ==> d == Next
    ensures d == Redirect(LoginPage) <==> !IsApiRoute(path) && !HasToken(token) && !IsAuthPage(path)
    ensures d == Redirect(DashboardPage) <==> !IsApiRoute(path) && HasToken(token) && IsAuthPage(path)
    ensures d.Redirect? ==> d.location == LoginPage || d.location == DashboardPage
  {
    if IsApiRoute(path) then Next
    else if !HasToken(token) && !IsAuthPage(path) then Redirect(LoginPage)
    else if HasToken(token) && IsAuthPage(path) then Redirect(DashboardPage)
    else Next
  }

  /** Following a redirect with the same cookie lands on a page that passes: the guard
      never redirects twice in a row, so it cannot loop. */
  lemma RedirectSettles(path: string, token: Option<string>)
    requires Route(path, token).Redirect?
    ensures Route(Route(path, token).location, token) == Next
  {
    var target := Route(path, token).location;
    if target == LoginPage {
      assert StartsWith(target, LoginPage);
      PrefixesClash(target, LoginPage, "/api", 1);
    } else {
      assert target == DashboardPage;
      assert StartsWith(target, DashboardPage);
      PrefixesClash(target, DashboardPage, "/api", 1);
      PrefixesClash(target, DashboardPage, LoginPage, 1);
      PrefixesClash(target, DashboardPage, SignupPage, 1);
    }
  }

  /** The matcher `/((?!_next/static|_next/image|favicon.ico|public).*)`: a path of the
      form '/' then a rest that does not begin with one of the four alternatives. The
      `.` in `favicon.ico` is a regular-expression wildcard and matches any character.
      (A URL pathname holds no raw line terminator, so `.*` accepts any rest.) */
  predicate Matcher(path: string) {
    |path| >= 1 && path[0] == '/' && !ExcludedRest(path[1..])
  }

  predicate ExcludedRest(rest: string) {
    || StartsWith(rest, "_next/static")
    || StartsWith(rest, "_next/image")
    || (|rest| >= 11 && rest[..7] == "favicon" && rest[8..11] == "ico")
    || StartsWith(rest, "public")
  }

  /** The request as a whole: paths the matcher skips never run the middleware, so a
      redirect needs both a matched path and the guard's condition for it. */
  function Handle(path: string, token: Option<string>): (d: Decision)
    ensures d == Redirect(LoginPage) <==>
      Matcher(path) && !IsApiRoute(path) && !HasToken(token) && !IsAuthPage(path)
    ensures d == Redirect(DashboardPage) <==>
      Matcher(path) && !IsApiRoute(path) && HasToken(token) && IsAuthPage(path)
    ensures d.Redirect? ==> d.location == LoginPage || d.location == DashboardPage
  {
    if Matcher(path) then Route(path, token) else Next
  }

  /** Static assets, images, the favicon and public files are never redirected. */
  lemma AssetsPass(rest: string, token: Option<string>)
    requires StartsWith(rest, "_next/static") || StartsWith(rest, "_next/image")
          || StartsWith(rest, "favicon.ico") || StartsWith(rest, "public")
    ensures Handle("/" + rest, token) == Next
  {
    assert ("/" + rest)[1..] == rest;
    if StartsWith(rest, "favicon.ico") {
      assert rest[..7] == "favicon" && rest[8..11] == "ico";
    }
  }

  /** Because of the wildcard, any character in place of the dot excludes the path as
      well: /favicon_ico, /faviconXico and so on are never redirected. */
  lemma WildcardDot(c: char, tail: string, token: Option<string>)
    ensures !Matcher("/favicon" + [c] + "ico" + tail)
    ensures Handle("/favicon" + [c] + "ico" + tail, token) == Next
  {
    var rest := "favicon" + [c] + "ico" + tail;
    assert ("/favicon" + [c] + "ico" + tail)[1..] == rest;
    assert rest[..7] == "favicon" && rest[8..11] == "ico";
  }
}
