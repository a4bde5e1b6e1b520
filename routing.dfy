/**
 * The request middleware: for a request URL it either answers with a
 * redirect or lets the request through. It sends the common mistyped login
 * routes to the admin login page and strips a trailing slash from admin
 * routes, keeping the query string in both cases.
 */
module Routing {
  import opened Wrappers

  /** The parts of the request URL the middleware reads and writes. */
  datatype Url = Url(pathname: string, search: string)

  /** `NextResponse.redirect(url)` or `NextResponse.next()`. */
  datatype Decision = Redirect(target: Url) | Next

  const AdminLogin: string := "/admin/login"

  predicate StartsWith(s: string, prefix: string)
  {
    |prefix| <= |s| && s[..|prefix|] == prefix
  }

  predicate EndsWith(s: string, suffix: string)
  {
    |suffix| <= |s| && s[|s| - |suffix|..] == suffix
  }

  /** The mistyped login routes. */
  predicate IsLoginAlias(pathname: string)
  {
    pathname == "/login/admin" || pathname == "/login" || pathname == "/admin/login/"
  }

  /** `url.search = request.nextUrl.search` when the request has a query string. */
  function KeepQuery(url: Url, request: Url): Url
  {
    if request.search != "" then url.(search := request.search) else url
  }

  /** `pathname.slice(0, -1)`. */
  function DropLast(s: string): (r: string)
    ensures |s| > 0 ==> r == s[..|s| - 1]
    ensures |s| == 0 ==> r == ""
  {
    if |s| == 0 then "" else s[..|s| - 1]
  }

  /** `middleware(request)`. */
  function Middleware(request: Url): (d: Decision)
    ensures d.Redirect? <==>
      IsLoginAlias(request.pathname) || (StartsWith(request.pathname, "/admin/") && EndsWith(request.pathname, "/"))
    ensures d.Redirect? ==> d.target.search == request.search
    ensures IsLoginAlias(request.pathname) ==> d == Redirect(Url(AdminLogin, request.search))
    ensures d.Redirect? && !IsLoginAlias(request.pathname) ==>
      d.target.pathname == request.pathname[..|request.pathname| - 1] && request.pathname[|request.pathname| - 1] == '/'
  {
    var pathname := request.pathname;
    if pathname == "/login/admin" || pathname == "/login" || pathname == "/admin/login/" then
      Redirect(KeepQuery(request.(pathname := AdminLogin), request))
    else if pathname != "/admin/login/" && EndsWith(pathname, "/") && StartsWith(pathname, "/admin/") then
      Redirect(KeepQuery(request.(pathname := DropLast(pathname)), request))
    else
      Next
  }

  /** The middleware without its `pathname !== '/admin/login/'` test. */
  function MiddlewareUnguarded(request: Url): Decision
  {
    var pathname := request.pathname;
    if IsLoginAlias(pathname) then
      Redirect(Url(AdminLogin, request.search))
    else if EndsWith(pathname, "/") && StartsWith(pathname, "/admin/") then
      Redirect(Url(DropLast(pathname), request.search))
    else
      Next
  }

  /** The `/admin/login/` exclusion never decides: the alias rule has already taken that path. */
  lemma GuardNeverDecides(request: Url)
    ensures Middleware(request) == MiddlewareUnguarded(request)
  {
  }

  /** The login page itself passes through. */
  lemma AdminLoginIsFixed(search: string)
    ensures Middleware(Url(AdminLogin, search)) == Next
  {
    assert !EndsWith(AdminLogin, "/") by {
      assert AdminLogin[|AdminLogin| - 1] == 'n';
    }
  }

  /** Following redirects from `request`, at most `steps` times, until the middleware lets a URL through. */
  function Settle(request: Url, steps: nat): Option<Url>
    decreases steps
  {
    if steps == 0 then None
    else
      match Middleware(request)
      case Next => Some(request)
      case Redirect(target) => Settle(target, steps - 1)
  }

  /**
   * Re-applying the middleware to its redirect target ends at a URL it lets
   * through, with the query string unchanged, within `|pathname| + 2` requests:
   * every trailing-slash redirect shortens the path and the login page is a
   * fixed point.
   */
  lemma {:induction false} RedirectsSettle(request: Url)
    ensures Settle(request, |request.pathname| + 2).Some?
    ensures var settled := Settle(request, |request.pathname| + 2).value;
      Middleware(settled) == Next && settled.search == request.search
    decreases |request.pathname|
  {
    var n := |request.pathname| + 2;
    match Middleware(request)
    case Next =>
    case Redirect(target) =>
      if IsLoginAlias(request.pathname) {
        AdminLoginIsFixed(request.search);
        assert Settle(target, n - 1) == Some(target);
      } else {
        RedirectsSettle(target);
      }
  }
}
