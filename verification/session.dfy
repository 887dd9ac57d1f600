/** The browser session (AuthContext.js): login, restore and logout, the
    `Authorization` header that `fetchWithAuth` attaches and its 401 rule, the
    formatting and classification of notifications, and marking them read.
    Session storage is the pair of `user` and `token` fields. */
module Session {
  import opened Wrappers
  import Text
  import Seqs

  /** The user object the server returns at login (and that is stored). */
  datatype User = User(id: int, email: string, role: string, fullName: string)

  /** How a notification is labelled in the bell menu. */
  datatype NoticeKind = StatusUpdate | NewComment | NewIdea

  /** A formatted notification; `severity` is always 'info' and is not carried. */
  datatype Notice = Notice(id: int, message: string, read: bool, createdAt: string, kind: NoticeKind)

  /** A row of `GET /notifications/user/{id}`. */
  datatype ServerNotification = ServerNotification(id: int, message: string, isRead: int, createdAt: string)

  /** The provider's state: the React state plus the two session-storage
      entries and whether a polling timer is installed. */
  datatype State = State(
    user: Option<User>,
    isLoggedIn: bool,
    loading: bool,
    notifications: seq<Notice>,
    storedUser: Option<User>,
    storedToken: Option<string>,
    polling: bool)

  /** `logout`: timer cleared, notifications emptied, storage entries
      removed, user and login flag reset. `loading` is left as it was. */
  function Logout(s: State): (r: State)
    ensures r.user.None? && !r.isLoggedIn && r.notifications == []
    ensures r.storedUser.None? && r.storedToken.None? && !r.polling
    ensures r.loading == s.loading
  {
    State(None, false, s.loading, [], None, None, false)
  }

  /** Logging out twice is logging out once. */
  lemma LogoutIdempotent(s: State)
    ensures Logout(Logout(s)) == Logout(s)
  {
  }

  /** The value of the `Authorization` header: `Bearer <token>` for a stored
      (non-empty) token, '' otherwise. */
  function AuthHeader(token: Option<string>): (h: string)
    ensures token.Some? && token.value != "" ==> Text.StartsWith(h, "Bearer ") && h[7..] == token.value
    ensures token.None? || token.value == "" ==> h == ""
  {
    if token.Some? && token.value != "" then "Bearer " + token.value else ""
  }

  /** The headers `fetchWithAuth` sends: a JSON content type unless the
      caller overrides it, the caller's headers, and the computed
      `Authorization`, which always wins. */
  function Headers(caller: map<string, string>, token: Option<string>): (r: map<string, string>)
    ensures "Authorization" in r && r["Authorization"] == AuthHeader(token)
    ensures "Content-Type" in r
    ensures "Content-Type" !in caller ==> r["Content-Type"] == "application/json"
    ensures forall k :: k in caller && k != "Authorization" ==> k in r && r[k] == caller[k]
    ensures forall k :: k in r ==> k in caller || k == "Authorization" || k == "Content-Type"
  {
    map["Content-Type" := "application/json"] + caller + map["Authorization" := AuthHeader(token)]
  }

  /** The 401 rule of `fetchWithAuth`: an unauthorised answer logs out, any
      other status leaves the session alone. */
  function AfterResponse(s: State, status: int): (r: State)
    ensures status == 401 ==> r == Logout(s)
    ensures status != 401 ==> r == s
  {
    if status == 401 then Logout(s) else s
  }

  /** The `type` of a notification, decided by substrings of its message. */
  function Classify(message: string): (k: NoticeKind)
    ensures k == StatusUpdate <==> Text.Contains(message, "updated to")
    ensures k == NewComment <==> !Text.Contains(message, "updated to") && Text.Contains(message, "commented on")
  {
    if Text.Contains(message, "updated to") then StatusUpdate
    else if Text.Contains(message, "commented on") then NewComment
    else NewIdea
  }

  /** One formatted entry: read iff `is_read === 1`. */
  function Format(n: ServerNotification): (r: Notice)
    ensures r.id == n.id && r.message == n.message && r.createdAt == n.createdAt
    ensures r.read <==> n.isRead == 1
    ensures r.kind == Classify(n.message)
  {
    Notice(n.id, n.message, n.isRead == 1, n.createdAt, Classify(n.message))
  }

  function FormatAll(ns: seq<ServerNotification>): (r: seq<Notice>)
    ensures |r| == |ns| && forall k :: 0 <= k < |ns| ==> r[k] == Format(ns[k])
  {
    seq(|ns|, k requires 0 <= k < |ns| => Format(ns[k]))
  }

  /** The answer to the notifications request. */
  datatype NoticesResponse = NoticesOk(rows: seq<ServerNotification>) | NoticesFailed(status: int)

  /** `fetchNotifications(userId)`: nothing without a user id (0 counts as
      none); a good answer replaces the list; a 401 logs out (and empties
      it); any other failure leaves it. */
  function FetchNotifications(s: State, userId: Option<int>, response: NoticesResponse): (r: State)
    ensures userId.None? || userId.value == 0 ==> r == s
    ensures userId.Some? && userId.value != 0 && response.NoticesOk? ==>
      r == s.(notifications := FormatAll(response.rows))
    ensures userId.Some? && userId.value != 0 && response == NoticesFailed(401) ==> r == Logout(s)
    ensures userId.Some? && userId.value != 0 && response.NoticesFailed? && response.status != 401 ==> r == s
  {
    if userId.None? || userId.value == 0 then s
    else match response
      case NoticesOk(rows) => s.(notifications := FormatAll(rows))
      case NoticesFailed(status) => AfterResponse(s, status)
  }

  /** The role the browser uses: the configured superadmin address becomes
      'superadmin', the CEO address 'ceo', anyone else keeps the server's role. */
  function OverrideRole(u: User, superadminEmail: string): (r: User)
    ensures r.(role := u.role) == u
    ensures u.email == superadminEmail ==> r.role == "superadmin"
    ensures u.email != superadminEmail && u.email == "ceo@adventz.com" ==> r.role == "ceo"
    ensures u.email != superadminEmail && u.email != "ceo@adventz.com" ==> r.role == u.role
  {
    if u.email == superadminEmail then u.(role := "superadmin")
    else if u.email == "ceo@adventz.com" then u.(role := "ceo")
    else u
  }

  /** Overriding twice changes nothing more. */
  lemma OverrideRoleIdempotent(u: User, superadminEmail: string)
    ensures OverrideRole(OverrideRole(u, superadminEmail), superadminEmail) == OverrideRole(u, superadminEmail)
  {
  }

  /** The login answer: a user and token, or a failing status with the
      server's error text. */
  datatype LoginResponse = LoginOk(user: User, token: string) | LoginFailed(status: int, error: string)

  datatype LoginResult = Success(user: User) | Failure(error: string)

  /** `login`: on success the overridden user and the token are stored and
      notifications are fetched once (`fetched`); on failure the error is
      handed back. The request goes through `fetchWithAuth`, so a 401 (the
      server's answer to a wrong password) also runs `logout`. No polling
      timer is started. */
  function Login(s: State, response: LoginResponse, superadminEmail: string,
                 fetched: NoticesResponse): (r: (State, LoginResult))
    ensures response.LoginFailed? ==> r == (AfterResponse(s, response.status), Failure(response.error))
    ensures response.LoginOk? ==>
      var u := OverrideRole(response.user, superadminEmail);
      var logged := s.(user := Some(u), isLoggedIn := true, storedUser := Some(u),
                       storedToken := Some(response.token));
      && r.1 == Success(u)
      && r.0 == FetchNotifications(logged, Some(u.id), fetched)
    ensures !s.polling ==> !r.0.polling
  {
    match response
    case LoginFailed(status, error) => (AfterResponse(s, status), Failure(error))
    case LoginOk(user, token) =>
      var u := OverrideRole(user, superadminEmail);
      var logged := s.(user := Some(u), isLoggedIn := true, storedUser := Some(u), storedToken := Some(token));
      (FetchNotifications(logged, Some(u.id), fetched), Success(u))
  }

  /** A failed login from a logged-out session (the only place the login
      form is offered) leaves the session exactly as it was. */
  lemma FailedLoginKeepsLoggedOutSession(s: State, status: int, error: string,
                                         superadminEmail: string, fetched: NoticesResponse)
    requires s == Logout(s)
    ensures Login(s, LoginFailed(status, error), superadminEmail, fetched) == (s, Failure(error))
  {
  }

  /** The mount effect: with both storage entries present the stored user
      (role overridden) is logged in and polling starts; otherwise nobody is. */
  function Restore(s: State, superadminEmail: string, fetched: NoticesResponse): (r: State)
    ensures !r.loading
    ensures (s.storedUser.None? || s.storedToken.None? || s.storedToken.value == "") ==>
      r == s.(loading := false, polling := false)
    ensures s.storedUser.Some? && s.storedToken.Some? && s.storedToken.value != "" && fetched.NoticesOk? ==>
      && r.isLoggedIn && r.polling
      && r.user == Some(OverrideRole(s.storedUser.value, superadminEmail))
  {
    if s.storedUser.Some? && s.storedToken.Some? && s.storedToken.value != "" then
      var u := OverrideRole(s.storedUser.value, superadminEmail);
      var logged := s.(user := Some(u), isLoggedIn := true, loading := false, polling := true);
      FetchNotifications(logged, Some(u.id), fetched)
    else
      s.(loading := false, polling := false)
  }

  /** The ids of the unread notifications, in list order. */
  function UnreadIds(ns: seq<Notice>): (ids: seq<int>)
    ensures |ids| <= |ns|
    ensures forall k :: 0 <= k < |ns| && !ns[k].read ==> ns[k].id in ids
    ensures forall i :: i in ids ==> exists k :: 0 <= k < |ns| && !ns[k].read && ns[k].id == i
  {
    if |ns| == 0 then []
    else
      var rest := UnreadIds(ns[1..]);
      assert forall k :: 0 <= k < |ns[1..]| ==> ns[1..][k] == ns[k + 1];
      if ns[0].read then rest else [ns[0].id] + rest
  }

  /** `markNotificationsAsRead`, given whether the request succeeded: no
      request without unread notifications; after success every
      notification whose id was sent is read and nothing else changes. */
  function MarkAllRead(ns: seq<Notice>, ok: bool): (r: (bool, seq<Notice>))
    ensures r.0 <==> exists k :: 0 <= k < |ns| && !ns[k].read
    ensures |r.1| == |ns|
    ensures !r.0 || !ok ==> r.1 == ns
    ensures r.0 && ok ==> forall k :: 0 <= k < |ns| ==> r.1[k] == ns[k].(read := true)
  {
    var ids := UnreadIds(ns);
    if |ids| == 0 then (false, ns)
    else
      assert ids[0] in ids;
      if !ok then (true, ns)
    else (true, seq(|ns|, k requires 0 <= k < |ns| => if ns[k].id in ids then ns[k].(read := true) else ns[k]))
  }

  /** A successful mark-read leaves no unread notification, and one that was
      already read is untouched. */
  lemma MarkAllReadClears(ns: seq<Notice>, k: int)
    requires 0 <= k < |ns|
    ensures MarkAllRead(ns, true).1[k].read
    ensures ns[k].read ==> MarkAllRead(ns, true).1[k] == ns[k]
  {
  }
}
