/** Lemmas that tie the browser's rules to the server's: the optimistic
    reaction step against the recount of the reaction table, the sign-up
    form against the sign-up endpoint, the `Authorization` header against
    `token_required`, and the server's notification texts against the
    browser's classifier. */
module CrossChecks {
  import opened Wrappers
  import opened Ideas
  import Text
  import Reactions
  import ReactionTable
  import ServerDb
  import Session
  import UserAdmin
  import Routing
  import SignupForm
  import SignupEndpoint

  // ---------------------------------------------------------------------
  // reactions

  /** The idea as the browser holds it agrees with the table for this user:
      the same counts and the user's own row as the reaction. */
  predicate InSync(idea: Idea, t: seq<ReactionTable.Row>, user: int)
  {
    && OrZero(idea.likes) == ReactionTable.CountKind(t, idea.id, Like)
    && OrZero(idea.dislikes) == ReactionTable.CountKind(t, idea.id, Dislike)
    && idea.userReaction == ReactionTable.Lookup(t, idea.id, user)
  }

  /** The optimistic guess is right: when the browser's copy is in sync with
      the table, the request is stored exactly when the idea and the user
      still exist, and then the counts and reaction of the optimistic step
      are exactly the ones the server replies with. */
  lemma {:induction false} OptimisticMatchesServer(db: ReactionTable.Db, idea: Idea, user: int, role: string,
                                                   kind: Reaction)
    requires ReactionTable.Valid(db) && InSync(idea, db.reactions, user)
    ensures var r := ReactionTable.ReactToIdea(db, idea.id, user, role, ReactionTable.ReactionName(kind));
      var out := Reactions.ReactLocally(idea, kind);
      && (r.Reacted? <==> idea.id in db.ideas && user in db.roles)
      && (r.Reacted? ==>
            && out.likes == Some(r.reply.likes)
            && out.dislikes == Some(r.reply.dislikes)
            && out.userReaction == r.reply.userReaction)
  {
    ReactionTable.ReactionStored(db, idea.id, user, role, kind);
    if !(idea.id in db.ideas && user in db.roles) {
      return;
    }
    var t := db.reactions;
    var t' := ReactionTable.ApplyReaction(t, idea.id, user, kind).0;
    ReactionTable.ApplyReactionTally(t, idea.id, user, kind, ReactionTable.IsKind(Like), idea.id);
    ReactionTable.ApplyReactionTally(t, idea.id, user, kind, ReactionTable.IsKind(Dislike), idea.id);
    SlotIsHolds(ReactionTable.Lookup(t, idea.id, user), idea.id, user);
    SlotIsHolds(ReactionTable.Lookup(t', idea.id, user), idea.id, user);
  }

  /** The user's own row counts towards `kind` exactly when it holds `kind`. */
  lemma SlotIsHolds(slot: Option<Reaction>, idea: int, user: int)
    ensures ReactionTable.SlotValue(slot, idea, user, ReactionTable.IsKind(Like)) == Reactions.Holds(slot, Like)
    ensures ReactionTable.SlotValue(slot, idea, user, ReactionTable.IsKind(Dislike)) == Reactions.Holds(slot, Dislike)
  {
  }

  /** Hence merging the reply into the optimistic idea only brings in the
      points: counts, reaction and net score already agree. */
  lemma MergeOnlyAddsPoints(db: ReactionTable.Db, idea: Idea, user: int, role: string, kind: Reaction)
    requires ReactionTable.Valid(db) && InSync(idea, db.reactions, user)
    ensures var r := ReactionTable.ReactToIdea(db, idea.id, user, role, ReactionTable.ReactionName(kind));
      var out := Reactions.ReactLocally(idea, kind);
      && (r.Reacted? <==> idea.id in db.ideas && user in db.roles)
      && (r.Reacted? ==> Reactions.MergeReply(out, r.reply) == out.(points := r.reply.points))
  {
    OptimisticMatchesServer(db, idea, user, role, kind);
  }

  // ---------------------------------------------------------------------
  // notifications

  /** Both status texts the server writes are labelled as status updates. */
  lemma StatusMessagesAreStatusUpdates(title: string, status: string)
    ensures Session.Classify(ServerDb.StatusMessage(title, status)) == Session.StatusUpdate
    ensures Session.Classify(ServerDb.CeoStatusMessage(title, status)) == Session.StatusUpdate
  {
    var a := "The status of your idea \"" + title + "\" has been ";
    assert ServerDb.StatusMessage(title, status) == a + "updated to" + (" \"" + status + "\".");
    Text.ContainsInside(a, "updated to", " \"" + status + "\".");
    assert ServerDb.CeoStatusMessage(title, status) == a + "updated to" + (" \"" + status + "\" by the CEO.");
    Text.ContainsInside(a, "updated to", " \"" + status + "\" by the CEO.");
  }

  /** The label is decided by the whole text, title included: a new-idea
      notice for an idea whose title mentions "updated to" is shown as a
      status update. */
  lemma TitleDecidesLabel(employeeName: string, before: string, after: string)
    ensures Session.Classify(ServerDb.NewIdeaMessage(employeeName, before + "updated to" + after))
         == Session.StatusUpdate
  {
    var a := "New idea submitted by " + employeeName + ": '" + before;
    assert ServerDb.NewIdeaMessage(employeeName, before + "updated to" + after) == a + "updated to" + (after + "'");
    Text.ContainsInside(a, "updated to", after + "'");
  }

  // ---------------------------------------------------------------------
  // the Authorization header

  /** Without a stored token the browser sends an empty header, which the
      server answers with 401 "Token is missing!" before any JWT check. */
  lemma NoTokenIsMissingToken(decode: string -> UserAdmin.Claims)
    ensures UserAdmin.TokenRequired(Some(Session.AuthHeader(None)), decode)
         == UserAdmin.Unauthorized(UserAdmin.Response(401, "Token is missing!"))
  {
  }

  /** With a stored token (which, being a JWT, has no space) the server
      checks exactly that token, and the browser's 401 rule logs out exactly
      when the server refuses it. */
  lemma HeaderCarriesToken(token: string, decode: string -> UserAdmin.Claims, s: Session.State)
    requires token != "" && ' ' !in token
    ensures var auth := UserAdmin.TokenRequired(Some(Session.AuthHeader(Some(token))), decode);
      && (auth.Authenticated? <==> decode(token).Decoded?)
      && (auth.Unauthorized? ==> Session.AfterResponse(s, auth.response.code) == Session.Logout(s))
  {
    UserAdmin.BearerRoundTrip(token);
  }

  // ---------------------------------------------------------------------
  // sign-up: the form against the endpoint

  /** The body `AuthContext.signup` posts: the five form fields and no `otp`. */
  function ClientSignupRequest(email: string, fullName: string, phone: string, password: string,
                               confirmPassword: string): (req: SignupEndpoint.SignupRequest)
    ensures req.otp.None?
    ensures req.email == Some(email) && req.fullName == Some(fullName) && req.phone == Some(phone)
    ensures req.password == Some(password) && req.confirmPassword == Some(confirmPassword)
  {
    SignupEndpoint.SignupRequest(Some(email), Some(fullName), Some(phone), Some(password),
                                 Some(confirmPassword), None)
  }

  /** As written, the browser's sign-up can never succeed: whatever the form
      holds and whatever OTPs the server has issued, the body lacks `otp` and
      is turned away as incomplete, with nothing stored. */
  lemma ClientSignupAlwaysRejected(s: SignupEndpoint.State, email: string, fullName: string, phone: string,
                                   password: string, confirmPassword: string, now: int)
    ensures SignupEndpoint.Signup(s, ClientSignupRequest(email, fullName, phone, password, confirmPassword), now)
         == (s, SignupEndpoint.Rejected(SignupEndpoint.MissingFields))
  {
    assert !SignupEndpoint.AllPresent(ClientSignupRequest(email, fullName, phone, password, confirmPassword));
  }

  /** The body with the OTP the user received, as the endpoint expects it. */
  function SignupRequestWithOtp(email: string, fullName: string, phone: string, password: string,
                                confirmPassword: string, otp: string): (req: SignupEndpoint.SignupRequest)
    ensures req.otp == Some(otp)
    ensures ClientSignupRequest(email, fullName, phone, password, confirmPassword) == req.(otp := None)
  {
    SignupEndpoint.SignupRequest(Some(email), Some(fullName), Some(phone), Some(password),
                                 Some(confirmPassword), Some(otp))
  }

  /** With the OTP included, the form's checks are enough for the server,
      given a non-blank name and the OTP the server holds for that address
      (unexpired): whatever the form lets through is created unless the
      address is already registered in some case, and except a password of
      fewer than eight characters that reaches eight UTF-16 code units (one
      outside the Basic Multilingual Plane counts twice in the browser). */
  lemma CorrectedSignupAccepted(s: SignupEndpoint.State, email: string, fullName: string, phone: string,
                                password: string, confirmPassword: string, otp: string, now: int)
    requires SignupForm.HandleSubmit(email, fullName, phone, password, confirmPassword).CallSignup?
    requires !Text.IsBlank(fullName)
    requires Text.Trim(email) in s.otps && s.otps[Text.Trim(email)].code == Text.Trim(otp)
    requires !Text.IsBlank(otp) && now <= s.otps[Text.Trim(email)].expiresAt
    ensures (SignupEndpoint.Signup(s, SignupRequestWithOtp(email, fullName, phone, password, confirmPassword, otp),
                                   now).1 == SignupEndpoint.Created)
      <==> |password| >= 8 && !SignupEndpoint.Taken(s.accounts, Text.Trim(email))
    ensures Text.InBmp(password) && !SignupEndpoint.Taken(s.accounts, Text.Trim(email)) ==>
      SignupEndpoint.Signup(s, SignupRequestWithOtp(email, fullName, phone, password, confirmPassword, otp),
                            now).1 == SignupEndpoint.Created
  {
    var req := SignupRequestWithOtp(email, fullName, phone, password, confirmPassword, otp);
    assert SignupForm.ValidEmail(email) && SignupForm.ValidPhone(phone) by {
      assert SignupForm.HandleSubmit(email, fullName, phone, password, confirmPassword).CallSignup?;
    }
    assert SignupForm.PasswordProblems(password) == [] && password == confirmPassword by {
      assert SignupForm.HandleSubmit(email, fullName, phone, password, confirmPassword).CallSignup?;
    }
    FormChecksSurviveTrim(email, phone, password);
    assert SignupEndpoint.Email(req) == Text.Trim(email);
    assert SignupEndpoint.Phone(req) == phone;
    assert SignupEndpoint.Otp(req) == Text.Trim(otp);
    assert SignupEndpoint.FullName(req) == Text.Trim(fullName);
    Text.Utf16LengthCountsPlanes(password);
    if |password| >= 8 && !SignupEndpoint.Taken(s.accounts, Text.Trim(email)) {
      SignupEndpoint.CreatedWhen(s, req, now);
    }
  }

  /** The stripping the endpoint does before its checks undoes none of the
      form's: a company address stays one, a valid phone is unchanged, and a
      password that meets the rules is non-empty. */
  lemma FormChecksSurviveTrim(email: string, phone: string, password: string)
    requires SignupForm.ValidEmail(email) && SignupForm.ValidPhone(phone)
    requires SignupForm.PasswordProblems(password) == []
    ensures SignupForm.ValidEmail(Text.Trim(email)) && Text.Trim(email) != ""
    ensures Text.Trim(phone) == phone && phone != ""
    ensures password != ""
  {
    var domain := SignupForm.CompanyDomain;
    DomainHasNoSpace();
    Text.EndsWithSurvivesTrim(email, domain);
    assert !Text.IsSpace(phone[0]) && !Text.IsSpace(phone[|phone| - 1]);
    Text.TrimOfTrimmed(phone);
  }

  lemma DomainHasNoSpace()
    ensures forall i :: 0 <= i < |SignupForm.CompanyDomain| ==> !Text.IsSpace(SignupForm.CompanyDomain[i])
  {
    var domain := SignupForm.CompanyDomain;
    forall i | 0 <= i < |domain| ensures !Text.IsSpace(domain[i]) {
      assert '!' <= domain[i] <= '~';
    }
  }

  /** The sidebar reads the browser's role, which `OverrideRole` rewrites by
      address, while the server reads the role stored in the database (the
      token's claim). They disagree on the "Users" page exactly for an
      account at the superadmin address whose stored role is not an admin
      one (nothing ever stores "superadmin"), and for the CEO address
      holding a stored admin role. */
  predicate UsersPageDisagrees(u: Session.User, superadminEmail: string)
  {
    || (u.email == superadminEmail && !UserAdmin.IsAdminRole(u.role))
    || (u.email != superadminEmail && u.email == "ceo@adventz.com" && UserAdmin.IsAdminRole(u.role))
  }

  /** The sidebar offers the "Users" page to a logged-in user exactly when
      the server lets that user list the users, except in the two cases of
      `UsersPageDisagrees`; a user without the page who typed the path gets
      403 unless they are such a case. */
  lemma UsersPageMatchesServer(u: Session.User, superadminEmail: string)
    ensures ("/admin-users" in Routing.Paths(Session.OverrideRole(u, superadminEmail).role)
             <==> UserAdmin.ListUsersAllowed(u.role).None?)
      <==> !UsersPageDisagrees(u, superadminEmail)
    ensures "/admin-users" !in Routing.Paths(Session.OverrideRole(u, superadminEmail).role)
            && !UsersPageDisagrees(u, superadminEmail) ==>
      UserAdmin.ListUsersAllowed(u.role) == Some(UserAdmin.Forbidden)
  {
    Routing.MenuAccess(Session.OverrideRole(u, superadminEmail).role);
  }

  /** An account created by sign-up at the superadmin address has the stored
      role "user": the sidebar shows it the "Users" page, and the page's own
      request is refused with 403. */
  lemma SuperadminAddressSeesForbiddenPage(superadminEmail: string, name: string)
    ensures var u := Session.User(1, superadminEmail, "user", name);
      && "/admin-users" in Routing.Paths(Session.OverrideRole(u, superadminEmail).role)
      && UserAdmin.ListUsersAllowed(u.role) == Some(UserAdmin.Forbidden)
  {
    Routing.MenuAccess("superadmin");
  }
}
