/** `POST /api/signup` (`signup` in app.py): the server re-checks the form's
    rules, in its own order, and in between verifies the one-time password
    held in the in-memory OTP store. */
module SignupEndpoint {
  import opened Wrappers
  import Text
  import SignupForm

  /** The JSON body; a key the client did not send is `None`. */
  datatype SignupRequest = SignupRequest(
    email: Option<string>,
    fullName: Option<string>,
    phone: Option<string>,
    password: Option<string>,
    confirmPassword: Option<string>,
    otp: Option<string>)

  /** An entry of `otp_store`; `expiresAt` is an abstract instant. */
  datatype OtpEntry = OtpEntry(code: string, expiresAt: int)

  /** A row of `users` created by sign-up (the hash is abstracted to the password). */
  datatype Account = Account(fullName: string, password: string, role: string)

  datatype State = State(otps: map<string, OtpEntry>, accounts: map<string, Account>)

  /** Why a request was turned away; each reason has its status and text. */
  datatype Reason =
    | MissingFields | ForeignDomain | NoOtp | WrongOtp | OtpExpired
    | PasswordMismatch | WeakPassword(rule: string) | BadPhone | EmailTaken

  datatype Outcome = Created | Rejected(reason: Reason)

  function StatusCode(o: Outcome): int
  {
    match o
    case Created => 201
    case Rejected(EmailTaken) => 409
    case Rejected(_) => 400
  }

  /** The JSON `message`/`error` text. */
  function Message(o: Outcome): string
  {
    match o
    case Created => "Account created successfully! Please login to continue."
    case Rejected(MissingFields) => "All fields are required, including OTP"
    case Rejected(ForeignDomain) => "Only @adventz.com email addresses are allowed"
    case Rejected(NoOtp) => "OTP not found or expired. Please request a new one."
    case Rejected(WrongOtp) => "Invalid OTP"
    case Rejected(OtpExpired) => "OTP has expired. Please request a new one."
    case Rejected(PasswordMismatch) => "Passwords do not match"
    case Rejected(WeakPassword(rule)) => rule
    case Rejected(BadPhone) => "Phone number must be exactly 10 digits"
    case Rejected(EmailTaken) => "An account with this email already exists"
  }

  /** `data.get(key, '')`. */
  function Field(v: Option<string>): string
  {
    v.GetOr("")
  }

  /** The server's password rules. The length rule counts characters
      (`len`), where the browser counts UTF-16 code units. */
  predicate MeetsPasswordRules(password: string)
  {
    |password| >= 8 && Text.HasUpper(password) && Text.HasLower(password) && Text.HasDigit(password)
  }

  /** The server's password rule messages, first failing rule only. The
      server is at least as strict as the browser, and exactly as strict
      when no character lies outside the Basic Multilingual Plane. */
  function PasswordError(password: string): (r: Option<string>)
    ensures r.None? <==> MeetsPasswordRules(password)
    ensures r.None? ==> SignupForm.PasswordProblems(password) == []
    ensures Text.InBmp(password) ==> (r.None? <==> SignupForm.PasswordProblems(password) == [])
    ensures r == Some("Password must be at least 8 characters long") <==> |password| < 8
  {
    Text.Utf16LengthCountsPlanes(password);
    if |password| < 8 then Some("Password must be at least 8 characters long")
    else if !Text.HasUpper(password) then Some("Password must contain at least one uppercase letter")
    else if !Text.HasLower(password) then Some("Password must contain at least one lowercase letter")
    else if !Text.HasDigit(password) then Some("Password must contain at least one number")
    else None
  }

  /** Where the two length rules part: three letters and digits and four
      emoji are eleven UTF-16 code units but seven characters, so the form
      lets the password through and the server refuses it. */
  lemma EmojiPasswordSplitsRules()
    ensures var p := "Aa1" + "\U{1F600}\U{1F600}\U{1F600}\U{1F600}";
      && SignupForm.PasswordProblems(p) == []
      && PasswordError(p) == Some("Password must be at least 8 characters long")
  {
    var a, e := "Aa1", "\U{1F600}\U{1F600}\U{1F600}\U{1F600}";
    var p := a + e;
    assert |a| == 3 && |e| == 4 && |p| == 7;
    assert Text.InBmp(a) by {
      forall i | 0 <= i < |a| ensures a[i] as int <= 0xFFFF { }
    }
    assert Text.Utf16Length(e) == 8 by {
      forall i | 0 <= i < |e| ensures e[i] as int > 0xFFFF { }
      Text.Utf16LengthCountsPlanes(e);
    }
    Text.Utf16LengthAppend(a, e);
    assert p[0] == 'A' && p[1] == 'a' && p[2] == '1';
    assert Text.HasUpper(p) && Text.HasLower(p) && Text.HasDigit(p);
  }

  /** The values the handler works with: email, name, phone and OTP stripped,
      the passwords as sent. */
  function Email(req: SignupRequest): string { Text.Trim(Field(req.email)) }
  function FullName(req: SignupRequest): string { Text.Trim(Field(req.fullName)) }
  function Phone(req: SignupRequest): string { Text.Trim(Field(req.phone)) }
  function Otp(req: SignupRequest): string { Text.Trim(Field(req.otp)) }

  /** `all([email, full_name, phone, password, confirm_password, otp])`. */
  predicate AllPresent(req: SignupRequest)
  {
    Email(req) != "" && FullName(req) != "" && Phone(req) != ""
    && Field(req.password) != "" && Field(req.confirmPassword) != "" && Otp(req) != ""
  }

  /** The OTP on file for the email matches and has not expired. */
  predicate OtpAccepted(s: State, req: SignupRequest, now: int)
  {
    Email(req) in s.otps && s.otps[Email(req)].code == Otp(req) && now <= s.otps[Email(req)].expiresAt
  }

  /** `users.email` is UNIQUE, and MySQL compares it under the connection's
      default `utf8mb4` collation, which ignores case: an email is taken when
      a stored one is equal to it up to the case of its letters. */
  predicate Taken(accounts: map<string, Account>, email: string)
  {
    exists a :: a in accounts && Text.FoldCase(a) == Text.FoldCase(email)
  }

  /** What the UNIQUE key keeps true: no two stored emails differ only in case. */
  predicate UniqueUpToCase(accounts: map<string, Account>)
  {
    forall a, b :: a in accounts && b in accounts && Text.FoldCase(a) == Text.FoldCase(b) ==> a == b
  }

  /** The handler. `now` is the clock reading. */
  function Signup(s: State, req: SignupRequest, now: int): (res: (State, Outcome))
    ensures !AllPresent(req) ==> res == (s, Rejected(MissingFields))
    ensures res.1 == Created <==>
      && AllPresent(req)
      && SignupForm.ValidEmail(Email(req))
      && OtpAccepted(s, req, now)
      && Field(req.password) == Field(req.confirmPassword)
      && MeetsPasswordRules(Field(req.password))
      && SignupForm.ValidPhone(Phone(req))
      && !Taken(s.accounts, Email(req))
    ensures res.1 == Created ==>
      res.0 == State(s.otps - {Email(req)},
                     s.accounts[Email(req) := Account(FullName(req), Field(req.password), "user")])
    ensures res.1 == Rejected(OtpExpired) ==> res.0 == s.(otps := s.otps - {Email(req)})
    ensures res.1 != Created && res.1 != Rejected(OtpExpired) ==> res.0 == s
  {
    var email := Email(req);
    var password := Field(req.password);
    if !AllPresent(req) then (s, Rejected(MissingFields))
    else if !SignupForm.ValidEmail(email) then (s, Rejected(ForeignDomain))
    else if email !in s.otps then (s, Rejected(NoOtp))
    else if s.otps[email].code != Otp(req) then (s, Rejected(WrongOtp))
    else if now > s.otps[email].expiresAt then (s.(otps := s.otps - {email}), Rejected(OtpExpired))
    else if password != Field(req.confirmPassword) then (s, Rejected(PasswordMismatch))
    else if PasswordError(password).Some? then (s, Rejected(WeakPassword(PasswordError(password).value)))
    else if !SignupForm.ValidPhone(Phone(req)) then (s, Rejected(BadPhone))
    else if Taken(s.accounts, email) then (s, Rejected(EmailTaken))
    else
      (State(s.otps - {email}, s.accounts[email := Account(FullName(req), password, "user")]), Created)
  }

  /** The conditions for an account, each stated on its own. */
  lemma CreatedWhen(s: State, req: SignupRequest, now: int)
    requires AllPresent(req) && SignupForm.ValidEmail(Email(req)) && OtpAccepted(s, req, now)
    requires Field(req.password) == Field(req.confirmPassword)
    requires MeetsPasswordRules(Field(req.password))
    requires SignupForm.ValidPhone(Phone(req)) && !Taken(s.accounts, Email(req))
    ensures Signup(s, req, now).1 == Created
  {
  }

  /** An email already stored in another case is turned away with 409, the
      `IntegrityError` of the INSERT: "Alice@adventz.com" on file blocks
      "alice@adventz.com". */
  lemma CaseVariantIsTaken(s: State, req: SignupRequest, now: int, stored: string)
    requires AllPresent(req) && SignupForm.ValidEmail(Email(req)) && OtpAccepted(s, req, now)
    requires Field(req.password) == Field(req.confirmPassword)
    requires MeetsPasswordRules(Field(req.password))
    requires SignupForm.ValidPhone(Phone(req))
    requires stored in s.accounts && Text.FoldCase(stored) == Text.FoldCase(Email(req))
    ensures Signup(s, req, now) == (s, Rejected(EmailTaken))
    ensures StatusCode(Signup(s, req, now).1) == 409
  {
    assert Taken(s.accounts, Email(req));
  }

  /** The folding behind `Taken` is the one the example needs. */
  lemma AliceIsTaken(acct: Account)
    ensures Taken(map["Alice@adventz.com" := acct], "alice@adventz.com")
    ensures !Taken(map["Alice@adventz.com" := acct], "alicia@adventz.com")
  {
    var f := Text.FoldCase("Alice@adventz.com");
    assert f[0] == 'a';
    assert f == "alice@adventz.com";
    assert Text.FoldCase("alice@adventz.com") == "alice@adventz.com";
    assert Text.FoldCase("alicia@adventz.com")[4] == 'i';
  }

  /** Sign-up keeps the UNIQUE key: it never stores an email that differs
      only in case from one already there. */
  lemma SignupKeepsEmailsUnique(s: State, req: SignupRequest, now: int)
    requires UniqueUpToCase(s.accounts)
    ensures UniqueUpToCase(Signup(s, req, now).0.accounts)
    ensures Signup(s, req, now).1 == Created ==>
      s.accounts.Keys < Signup(s, req, now).0.accounts.Keys
  {
    var (t, o) := Signup(s, req, now);
    if o == Created {
      var e := Email(req);
      assert !Taken(s.accounts, e);
      assert e !in s.accounts;
      assert e in t.accounts.Keys;
    }
  }

  /** An OTP is single-use: once an account was created with it, the same
      request is turned away (the OTP is gone). */
  lemma OtpSingleUse(s: State, req: SignupRequest, now: int)
    requires Signup(s, req, now).1 == Created
    ensures Signup(Signup(s, req, now).0, req, now).1 == Rejected(NoOtp)
  {
  }

  /** The server checks the password before the phone: a request failing
      both is answered with the password message. */
  lemma PasswordBeforePhone(s: State, req: SignupRequest, now: int)
    requires AllPresent(req) && SignupForm.ValidEmail(Email(req)) && OtpAccepted(s, req, now)
    requires Field(req.password) == Field(req.confirmPassword)
    requires PasswordError(Field(req.password)).Some?
    ensures Signup(s, req, now).1 == Rejected(WeakPassword(PasswordError(Field(req.password)).value))
  {
  }
}
