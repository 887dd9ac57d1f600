/** Where a signed-in user may go: the route guard (PrivateRoute.js) and the
    sidebar's menus (Sidebar.js). */
module Routing {
  import opened Wrappers
  import Session

  // ---------------------------------------------------------------------
  // the route guard

  /** What the guarded route renders. `Crash` is the `TypeError` of reading
      `user.role` when the session claims a login but holds no user. */
  datatype Outcome = ShowLoading | ToLogin | RedirectTo(path: string) | RenderPage | Crash

  /** The landing page of a role: admins to the dashboard, the CEO to the
      organisation's ideas, everyone else to the idea form. */
  function Home(role: string): (path: string)
    ensures role == "superadmin" || role == "admin" ==> path == "/admin-dashboard"
    ensures role == "ceo" ==> path == "/organization-ideas"
    ensures role != "superadmin" && role != "admin" && role != "ceo" ==> path == "/submit-idea"
  {
    if role == "superadmin" || role == "admin" then "/admin-dashboard"
    else if role == "ceo" then "/organization-ideas"
    else "/submit-idea"
  }

  /** The guard: wait while the session loads, send a visitor to the login,
      and send a user whose role is not listed (any list, even an empty one,
      restricts) to their landing page. */
  function Guard(s: Session.State, allowedRoles: Option<seq<string>>): (r: Outcome)
    ensures s.loading ==> r == ShowLoading
    ensures !s.loading && !s.isLoggedIn ==> r == ToLogin
    ensures r == RenderPage <==>
      !s.loading && s.isLoggedIn
      && (allowedRoles.None? || (s.user.Some? && s.user.value.role in allowedRoles.value))
    ensures r.RedirectTo? ==> s.user.Some? && r.path == Home(s.user.value.role)
  {
    if s.loading then ShowLoading
    else if !s.isLoggedIn then ToLogin
    else if allowedRoles.Some? && (s.user.None? || s.user.value.role !in allowedRoles.value) then
      if s.user.None? then Crash else RedirectTo(Home(s.user.value.role))
    else RenderPage
  }

  /** The session never claims a login without a user. */
  predicate Coherent(s: Session.State)
  {
    s.isLoggedIn ==> s.user.Some?
  }

  /** Logging in, logging out and restoring a stored session keep the
      session coherent, so the guard never crashes. */
  lemma SessionStaysCoherent(s: Session.State, response: Session.LoginResponse, superadminEmail: string,
                             fetched: Session.NoticesResponse, status: int)
    requires Coherent(s)
    ensures Coherent(Session.Logout(s))
    ensures Coherent(Session.AfterResponse(s, status))
    ensures Coherent(Session.Login(s, response, superadminEmail, fetched).0)
    ensures Coherent(Session.Restore(s, superadminEmail, fetched))
  {
  }

  lemma CoherentNeverCrashes(s: Session.State, allowedRoles: Option<seq<string>>)
    requires Coherent(s)
    ensures Guard(s, allowedRoles) != Crash
  {
  }

  /** A redirected user lands on a page of their own menu (its first item),
      and their landing page is a route open to a list naming their role. */
  lemma RedirectStaysInMenu(s: Session.State, allowedRoles: Option<seq<string>>)
    requires Guard(s, allowedRoles).RedirectTo?
    ensures Guard(s, allowedRoles).path == MenuItems(s.user.value.role)[0].path
  {
    HomeIsFirstMenuItem(s.user.value.role);
  }

  // ---------------------------------------------------------------------
  // the sidebar

  datatype Item = Item(path: string, title: string)

  predicate IsAdmin(role: string)
  {
    role == "admin" || role == "superadmin"
  }

  /** The main menu: the CEO's single item; otherwise the admin or the
      employee items followed by "Organization Ideas". */
  function MenuItems(role: string): (r: seq<Item>)
    ensures |r| > 0
    ensures role == "ceo" ==> r == [Item("/organization-ideas", "Organization Ideas")]
    ensures role != "ceo" ==> |r| == 3 && r[2] == Item("/organization-ideas", "Organization Ideas")
    ensures role != "ceo" && IsAdmin(role) ==> r[..2] == [Item("/admin-dashboard", "Dashboard"), Item("/admin-users", "Users")]
    ensures role != "ceo" && !IsAdmin(role) ==> r[..2] == [Item("/submit-idea", "Submit Idea"), Item("/review-my-ideas", "My Ideas")]
  {
    var common := [Item("/organization-ideas", "Organization Ideas")];
    var admin := [Item("/admin-dashboard", "Dashboard"), Item("/admin-users", "Users")];
    var employee := [Item("/submit-idea", "Submit Idea"), Item("/review-my-ideas", "My Ideas")];
    if role == "ceo" then common
    else (if IsAdmin(role) then admin else employee) + common
  }

  /** The bottom menu: "Settings" for admins only. */
  function BottomItems(role: string): (r: seq<Item>)
    ensures IsAdmin(role) ==> r == [Item("/admin-config", "Settings")]
    ensures !IsAdmin(role) ==> r == []
  {
    if IsAdmin(role) then [Item("/admin-config", "Settings")] else []
  }

  /** Every path the sidebar offers a role. */
  function Paths(role: string): (r: seq<string>)
    ensures |r| == |MenuItems(role)| + |BottomItems(role)|
    ensures forall k :: 0 <= k < |r| ==> r[k] == (MenuItems(role) + BottomItems(role))[k].path
  {
    var items := MenuItems(role) + BottomItems(role);
    seq(|items|, k requires 0 <= k < |items| => items[k].path)
  }

  /** The landing page a role is redirected to is the first item of its menu. */
  lemma HomeIsFirstMenuItem(role: string)
    ensures MenuItems(role)[0].path == Home(role)
  {
  }

  /** The three sidebars. */
  lemma PathsByRole(role: string)
    ensures role == "ceo" ==> Paths(role) == ["/organization-ideas"]
    ensures IsAdmin(role) ==>
      Paths(role) == ["/admin-dashboard", "/admin-users", "/organization-ideas", "/admin-config"]
    ensures role != "ceo" && !IsAdmin(role) ==>
      Paths(role) == ["/submit-idea", "/review-my-ideas", "/organization-ideas"]
  {
  }

  /** Everyone can reach the organisation's ideas; only admins see the
      settings, the user list and the dashboard; only employees (neither
      admin nor CEO) see the idea form and their own ideas. */
  lemma MenuAccess(role: string)
    ensures "/organization-ideas" in Paths(role)
    ensures "/admin-config" in Paths(role) <==> IsAdmin(role)
    ensures "/admin-users" in Paths(role) <==> IsAdmin(role)
    ensures "/admin-dashboard" in Paths(role) <==> IsAdmin(role)
    ensures "/submit-idea" in Paths(role) <==> !IsAdmin(role) && role != "ceo"
    ensures "/review-my-ideas" in Paths(role) <==> !IsAdmin(role) && role != "ceo"
  {
    PathsByRole(role);
  }

  /** The item shown as active: the one whose path is the current location. */
  predicate Active(pathname: string, item: Item)
  {
    pathname == item.path
  }

  /** No two items of a role's sidebar share a path, so at most one is
      highlighted for any location. */
  lemma AtMostOneActive(role: string, pathname: string, i: nat, j: nat)
    requires i < j < |Paths(role)|
    ensures Paths(role)[i] != Paths(role)[j]
    ensures !(Active(pathname, (MenuItems(role) + BottomItems(role))[i])
              && Active(pathname, (MenuItems(role) + BottomItems(role))[j]))
  {
    PathsByRole(role);
  }
}
