/**
 * The account lifecycle of app.py: signup, login with migration of legacy
 * plaintext passwords, e-mail verification by a hashed single-use token,
 * and password reset by a hashed token that expires after 30 minutes, all
 * over one users table keyed by e-mail address. Also the session identity
 * (`User`) and the admin-only route gate.
 *
 * The key-value table is a map field; the notification topic is an
 * append-only outbox; hashing is symbolic; random values and the clock are
 * parameters (minutes since an arbitrary epoch).
 */
module Accounts {
  import opened Wrappers

  type Email = string

  /** Minutes a password-reset link stays valid. */
  const ResetTokenLifetime: int := 30

  /** Shortest password that signup and reset accept. */
  const MinPasswordLength: nat := 8

  // ---------------------------------------------------------------------------
  // Hashing (symbolic)
  // ---------------------------------------------------------------------------

  /** The SHA-256 hex digest of a token, kept as the term it was computed from. */
  datatype TokenDigest = Sha256Hex(preimage: string)

  /** `_hash_token`: the digest stored in place of a raw token. */
  function HashToken(token: string): TokenDigest
  {
    Sha256Hex(token)
  }

  /**
   * Tokens are looked up by digest. This records the collision-freedom of SHA-256 that the
   * lookup relies on: it holds here because digests are modelled as terms, not because it
   * is derived from SHA-256 itself.
   */
  lemma HashTokenInjective(a: string, b: string)
    ensures HashToken(a) == HashToken(b) <==> a == b
  {
  }

  /** A salted PBKDF2-SHA256 password hash, kept as the term it was computed from. */
  datatype PasswordHash = Pbkdf2Sha256(salt: string, secret: string)

  /** `generate_password_hash(password, method='pbkdf2:sha256', salt_length=16)`; the salt is a parameter. */
  function GeneratePasswordHash(password: string, salt: string): PasswordHash
  {
    Pbkdf2Sha256(salt, password)
  }

  /** `check_password_hash(h, password)`. */
  predicate CheckPasswordHash(h: PasswordHash, password: string)
  {
    h.secret == password
  }

  /**
   * A generated hash accepts the password it was generated from and no other, whatever the salt.
   * This records the assumed exactness of PBKDF2-SHA256 verification (no two passwords collide
   * under one salt); it holds here because hashes are modelled as terms.
   */
  lemma CheckGeneratedPasswordHash(password: string, attempt: string, salt: string)
    ensures CheckPasswordHash(GeneratePasswordHash(password, salt), attempt) <==> attempt == password
  {
  }

  // ---------------------------------------------------------------------------
  // Records of the users table
  // ---------------------------------------------------------------------------

  /**
   * One item of the users table (its key, the e-mail address, is the map key).
   * An absent attribute is None; an absent `email_verified` reads as false.
   */
  datatype UserRecord = UserRecord(
    userId: Option<nat>,                          // the number in "user#<n>"
    name: Option<string>,
    passwordHash: Option<PasswordHash>,
    password: Option<string>,                     // legacy plaintext password
    role: Option<string>,
    status: Option<string>,
    emailVerified: bool,
    emailVerificationTokenHash: Option<TokenDigest>,
    emailVerificationSentAt: Option<int>,
    resetTokenHash: Option<TokenDigest>,
    resetTokenExpiresAt: Option<int>,
    createdAt: Option<int>,
    updatedAt: Option<int>)

  type Users = map<Email, UserRecord>

  /**
   * What every handler keeps true of a record: exactly one credential is stored,
   * a reset token always has an expiry, a verified account holds no pending
   * verification token, and only verified accounts hold reset tokens.
   */
  predicate RecordInvariant(r: UserRecord)
  {
    && r.passwordHash.Some? != r.password.Some?
    && r.resetTokenHash.Some? == r.resetTokenExpiresAt.Some?
    && (r.emailVerified ==> r.emailVerificationTokenHash.None?)
    && (r.resetTokenHash.Some? ==> r.emailVerified)
  }

  predicate TableInvariant(users: Users)
  {
    forall e :: e in users ==> RecordInvariant(users[e])
  }

  /** The attributes no handler writes after signup: identity, role, status and creation times. */
  predicate SameAccount(r: UserRecord, r': UserRecord)
  {
    && r'.userId == r.userId
    && r'.name == r.name
    && r'.role == r.role
    && r'.status == r.status
    && r'.createdAt == r.createdAt
    && r'.emailVerificationSentAt == r.emailVerificationSentAt
  }

  /** No record disappears and none changes identity, role or status. */
  predicate AccountsPreserved(before: Users, after: Users)
  {
    && before.Keys <= after.Keys
    && forall e :: e in before ==> SameAccount(before[e], after[e])
  }

  /** `user.get('status', 'active') == 'active'`: the status test of login. */
  predicate StatusIsActive(r: UserRecord)
  {
    GetOr(r.status, "active") == "active"
  }

  /**
   * The password test of login: the stored hash when one is present, otherwise
   * an exact comparison with a non-empty legacy plaintext password.
   */
  predicate PasswordAccepted(r: UserRecord, password: string)
  {
    match r.passwordHash
    case Some(h) => CheckPasswordHash(h, password)
    case None => r.password.Some? && r.password.value != "" && r.password.value == password
  }

  /** `not expires_at or now > expires_at`: a reset token is refused strictly after its expiry. */
  predicate ResetTokenExpired(r: UserRecord, now: int)
  {
    r.resetTokenExpiresAt.None? || now > r.resetTokenExpiresAt.value
  }

  /** The records a table scan filtered on `email_verification_token_hash = h` yields. */
  function VerificationMatches(users: Users, h: TokenDigest): set<Email>
  {
    set e | e in users && users[e].emailVerificationTokenHash == Some(h)
  }

  /** The records a table scan filtered on `reset_token_hash = h` yields. */
  function ResetMatches(users: Users, h: TokenDigest): set<Email>
  {
    set e | e in users && users[e].resetTokenHash == Some(h)
  }

  // ---------------------------------------------------------------------------
  // Record updates (the put_item / update_item expressions)
  // ---------------------------------------------------------------------------

  /** The item signup puts: role user, status active, unverified, with a pending verification token. */
  function NewUserRecord(name: string, password: string, now: int, randomId: bv32, salt: string, token: string)
    : (r: UserRecord)
    ensures RecordInvariant(r)
    ensures !r.emailVerified && r.role == Some("user") && StatusIsActive(r)
    ensures forall attempt :: PasswordAccepted(r, attempt) <==> attempt == password
    ensures r.passwordHash.Some? && r.password.None?
    ensures r.status == Some("active")
    ensures r.name == Some(name) && r.userId == Some(randomId as nat)
    ensures r.emailVerificationTokenHash == Some(HashToken(token))
    ensures r.resetTokenHash.None? && r.resetTokenExpiresAt.None?
    ensures r.createdAt == Some(now) && r.updatedAt == Some(now) && r.emailVerificationSentAt == Some(now)
  {
    UserRecord(
      userId := Some(randomId as nat),
      name := Some(name),
      passwordHash := Some(GeneratePasswordHash(password, salt)),
      password := None,
      role := Some("user"),
      status := Some("active"),
      emailVerified := false,
      emailVerificationTokenHash := Some(HashToken(token)),
      emailVerificationSentAt := Some(now),
      resetTokenHash := None,
      resetTokenExpiresAt := None,
      createdAt := Some(now),
      updatedAt := Some(now))
  }

  /** `SET password_hash, updated_at REMOVE password`: the login-time migration of a legacy password. */
  function MigrateLegacyPassword(r: UserRecord, password: string, salt: string, now: int): (r': UserRecord)
    ensures RecordInvariant(r) ==> RecordInvariant(r')
    ensures SameAccount(r, r')
    ensures r'.password.None? && r'.passwordHash.Some?
    ensures forall attempt :: PasswordAccepted(r', attempt) <==> attempt == password
    ensures r'.emailVerified == r.emailVerified && r'.emailVerificationTokenHash == r.emailVerificationTokenHash
    ensures r'.resetTokenHash == r.resetTokenHash && r'.resetTokenExpiresAt == r.resetTokenExpiresAt
    ensures r'.updatedAt == Some(now)
  {
    r.(passwordHash := Some(GeneratePasswordHash(password, salt)), password := None, updatedAt := Some(now))
  }

  /** `SET email_verified, updated_at REMOVE email_verification_token_hash`. */
  function MarkVerified(r: UserRecord, now: int): (r': UserRecord)
    ensures RecordInvariant(r) ==> RecordInvariant(r')
    ensures SameAccount(r, r')
    ensures r'.emailVerified && r'.emailVerificationTokenHash.None?
    ensures forall attempt :: PasswordAccepted(r', attempt) <==> PasswordAccepted(r, attempt)
    ensures r'.passwordHash == r.passwordHash && r'.password == r.password
    ensures r'.resetTokenHash == r.resetTokenHash && r'.resetTokenExpiresAt == r.resetTokenExpiresAt
    ensures r'.updatedAt == Some(now)
  {
    r.(emailVerified := true, emailVerificationTokenHash := None, updatedAt := Some(now))
  }

  /** `SET reset_token_hash, reset_token_expires_at, updated_at`, with the expiry 30 minutes ahead. */
  function IssueResetToken(r: UserRecord, token: string, now: int): (r': UserRecord)
    ensures RecordInvariant(r) && r.emailVerified ==> RecordInvariant(r')
    ensures SameAccount(r, r')
    ensures r'.resetTokenHash == Some(HashToken(token))
    ensures forall t :: !ResetTokenExpired(r', t) <==> t <= now + ResetTokenLifetime
    ensures forall attempt :: PasswordAccepted(r', attempt) <==> PasswordAccepted(r, attempt)
    ensures r'.passwordHash == r.passwordHash && r'.password == r.password
    ensures r'.emailVerified == r.emailVerified && r'.emailVerificationTokenHash == r.emailVerificationTokenHash
    ensures r'.updatedAt == Some(now)
  {
    r.(resetTokenHash := Some(HashToken(token)),
       resetTokenExpiresAt := Some(now + ResetTokenLifetime),
       updatedAt := Some(now))
  }

  /**
   * `SET password_hash, updated_at REMOVE reset_token_hash, reset_token_expires_at, password`:
   * the new password replaces every earlier credential and the reset token is consumed.
   */
  function ApplyPasswordReset(r: UserRecord, password: string, salt: string, now: int): (r': UserRecord)
    ensures RecordInvariant(r) ==> RecordInvariant(r')
    ensures SameAccount(r, r')
    ensures r'.resetTokenHash.None? && r'.resetTokenExpiresAt.None? && r'.password.None?
    ensures r'.emailVerified == r.emailVerified && r'.emailVerificationTokenHash == r.emailVerificationTokenHash
    ensures forall attempt :: PasswordAccepted(r', attempt) <==> attempt == password
    ensures r'.updatedAt == Some(now)
  {
    r.(passwordHash := Some(GeneratePasswordHash(password, salt)),
       password := None,
       resetTokenHash := None,
       resetTokenExpiresAt := None,
       updatedAt := Some(now))
  }

  /** Marking the matched record verified removes exactly that record from the matches of h. */
  lemma MarkVerifiedConsumesToken(users: Users, e: Email, h: TokenDigest, now: int)
    requires e in VerificationMatches(users, h)
    ensures VerificationMatches(users[e := MarkVerified(users[e], now)], h) == VerificationMatches(users, h) - {e}
  {
  }

  /** Applying a reset removes exactly the reset record from the matches of h. */
  lemma ApplyResetConsumesToken(users: Users, e: Email, h: TokenDigest, password: string, salt: string, now: int)
    requires e in ResetMatches(users, h)
    ensures ResetMatches(users[e := ApplyPasswordReset(users[e], password, salt, now)], h) == ResetMatches(users, h) - {e}
  {
  }

  /** The token mailed at signup is the one that finds the new record when the link is followed. */
  lemma SignupTokenVerifies(users: Users, email: Email, name: string, password: string,
                            now: int, randomId: bv32, salt: string, token: string)
    ensures email in VerificationMatches(users[email := NewUserRecord(name, password, now, randomId, salt, token)], HashToken(token))
  {
  }

  /** The token mailed by forgot-password finds the record, and is honoured up to 30 minutes after issue. */
  lemma IssuedResetTokenMatches(users: Users, email: Email, token: string, now: int, later: int)
    requires email in users
    ensures var users' := users[email := IssueResetToken(users[email], token, now)];
            && email in ResetMatches(users', HashToken(token))
            && (!ResetTokenExpired(users'[email], later) <==> later <= now + ResetTokenLifetime)
  {
  }

  // ---------------------------------------------------------------------------
  // Session identity and the admin gate
  // ---------------------------------------------------------------------------

  /** The flask-login user object of a session. */
  datatype User = User(id: Email, userId: Option<nat>, name: Option<string>, role: string, status: string)
  {
    predicate IsAdmin() { role == "admin" }
    predicate IsActive() { status == "active" }
  }

  /**
   * `User(email, user_id, name, role=item.get('role', 'user'), status=item.get('status', 'active'))`,
   * whose constructor further replaces an empty role by 'user' and an empty status by 'active'.
   */
  function ToUser(email: Email, r: UserRecord): (u: User)
    ensures u.id == email && u.userId == r.userId && u.name == r.name
    ensures u.IsAdmin() <==> r.role == Some("admin")
    ensures u.IsActive() <==> (r.status.None? || r.status == Some("") || r.status == Some("active"))
    ensures u.role != "" && u.status != ""
  {
    var role := GetOr(r.role, "user");
    var status := GetOr(r.status, "active");
    User(email, r.userId, r.name,
         if role == "" then "user" else role,
         if status == "" then "active" else status)
  }

  /** `_get_user_by_email` / `load_user`: the session identity of a stored account. */
  function LoadUser(users: Users, email: Email): (u: Option<User>)
    ensures u.Some? <==> email in users
    ensures u.Some? ==> u.value.id == email && (u.value.IsAdmin() <==> users[email].role == Some("admin"))
    ensures u.Some? ==> u.value == ToUser(email, users[email])
  {
    if email in users then Some(ToUser(email, users[email])) else None
  }

  /** Where `admin_required` sends a request. */
  datatype GateDecision = RedirectToLogin | DeniedRedirectToDashboard | Proceed

  /**
   * `admin_required`: requests that are not authenticated go to login, non-admins to the
   * dashboard, admins through. Flask-Login's `UserMixin.is_authenticated` (from version 0.6 on)
   * is the user's `is_active`, so a loaded user whose status is not active counts as not
   * authenticated.
   */
  function AdminGate(current: Option<User>): (g: GateDecision)
    ensures g == Proceed <==> current.Some? && current.value.IsActive() && current.value.role == "admin"
    ensures g == RedirectToLogin <==> current.None? || !current.value.IsActive()
    ensures g == DeniedRedirectToDashboard <==>
      current.Some? && current.value.IsActive() && current.value.role != "admin"
  {
    match current
    case None => RedirectToLogin
    case Some(u) =>
      if !u.IsActive() then RedirectToLogin
      else if !u.IsAdmin() then DeniedRedirectToDashboard
      else Proceed
  }

  /**
   * A session for a stored account passes the admin gate exactly when the item's role is
   * "admin" and its status is absent, empty or "active".
   */
  lemma AdminGateOnLoadedUser(users: Users, email: Email)
    ensures AdminGate(LoadUser(users, email)) == Proceed <==>
      email in users && users[email].role == Some("admin") &&
      (users[email].status.None? || users[email].status == Some("") || users[email].status == Some("active"))
  {
    if email in users {
      var u := ToUser(email, users[email]);
      assert LoadUser(users, email) == Some(u);
    }
  }

  /** No account created by signup passes the admin gate. */
  lemma SignupNeverGrantsAdmin(email: Email, name: string, password: string, now: int, randomId: bv32, salt: string, token: string)
    ensures AdminGate(Some(ToUser(email, NewUserRecord(name, password, now, randomId, salt, token)))) == DeniedRedirectToDashboard
  {
  }

  // ---------------------------------------------------------------------------
  // Outcomes and notifications
  // ---------------------------------------------------------------------------

  /** The flash message (or the login) a request ends with. */
  datatype Outcome =
    | PasswordsDoNotMatch
    | PasswordTooShort
    | EmailAlreadyRegistered
    | AccountCreated
    | AccountInactive
    | VerifyEmailFirst
    | InvalidEmailOrPassword
    | LoggedIn(user: User)
    | InvalidVerificationLink
    | VerificationLinkInvalidOrExpired
    | EmailVerified
    | ResetLinkSentIfExists
    | InvalidResetLink
    | ResetLinkInvalidOrExpired
    | PasswordUpdated

  /** A message published to the notification topic. */
  datatype Notification =
    | Welcome(name: string)
    | VerifyEmailLink(name: string, token: string)
    | ResetPasswordLink(recipient: Option<string>, token: string)

  /**
   * The login decision on the item stored under the e-mail (None when absent):
   * status first, then verification, and only then the password.
   */
  function LoginCheck(email: Email, item: Option<UserRecord>, password: string): (o: Outcome)
    ensures o.LoggedIn? <==>
      item.Some? && StatusIsActive(item.value) && item.value.emailVerified && PasswordAccepted(item.value, password)
    ensures o.LoggedIn? ==> o.user.IsActive() && o.user == ToUser(email, item.value)
    ensures item.None? ==> o == InvalidEmailOrPassword
    ensures item.Some? && !StatusIsActive(item.value) ==> o == AccountInactive
    ensures item.Some? && StatusIsActive(item.value) && !item.value.emailVerified ==> o == VerifyEmailFirst
    ensures item.Some? && StatusIsActive(item.value) && item.value.emailVerified && !PasswordAccepted(item.value, password)
      ==> o == InvalidEmailOrPassword
    ensures !o.LoggedIn? ==> o in {InvalidEmailOrPassword, AccountInactive, VerifyEmailFirst}
  {
    match item
    case None => InvalidEmailOrPassword
    case Some(r) =>
      if !StatusIsActive(r) then AccountInactive
      else if !r.emailVerified then VerifyEmailFirst
      else if !PasswordAccepted(r, password) then InvalidEmailOrPassword
      else LoggedIn(ToUser(email, r))
  }

  /** An inactive or unverified account gets the same answer whatever password is tried. */
  lemma LoginRevealsNothingBeforeVerification(email: Email, r: UserRecord, p: string, q: string)
    requires !StatusIsActive(r) || !r.emailVerified
    ensures LoginCheck(email, Some(r), p) == LoginCheck(email, Some(r), q)
    ensures !LoginCheck(email, Some(r), p).LoggedIn?
  {
  }

  /** A session identity built by login is the one `load_user` rebuilds from the table. */
  lemma LoginIdentityMatchesLoader(users: Users, email: Email, password: string)
    requires LoginCheck(email, if email in users then Some(users[email]) else None, password).LoggedIn?
    ensures LoadUser(users, email) == Some(LoginCheck(email, Some(users[email]), password).user)
  {
  }

  /** Right after signup no password logs in: the account must be verified first. */
  lemma FreshAccountMustVerify(email: Email, name: string, password: string, attempt: string,
                               now: int, randomId: bv32, salt: string, token: string)
    ensures LoginCheck(email, Some(NewUserRecord(name, password, now, randomId, salt, token)), attempt) == VerifyEmailFirst
  {
  }

  /** Once verified, a new account logs in with the signup password and with no other. */
  lemma VerifiedAccountLogsIn(email: Email, name: string, password: string, attempt: string,
                              now: int, later: int, randomId: bv32, salt: string, token: string)
    ensures LoginCheck(email, Some(MarkVerified(NewUserRecord(name, password, now, randomId, salt, token), later)), attempt).LoggedIn?
            <==> attempt == password
  {
    var r := NewUserRecord(name, password, now, randomId, salt, token);
    assert StatusIsActive(MarkVerified(r, later));
    assert PasswordAccepted(MarkVerified(r, later), attempt) <==> PasswordAccepted(r, attempt);
  }

  /** Migration keeps the login working with the same password, and only with it. */
  lemma MigrationKeepsCredential(r: UserRecord, password: string, salt: string, now: int, attempt: string)
    requires r.passwordHash.None? && PasswordAccepted(r, password)
    ensures PasswordAccepted(MigrateLegacyPassword(r, password, salt, now), attempt) <==> PasswordAccepted(r, attempt)
  {
  }

  /** A reset link issued at `issued` is still accepted at exactly `issued + 30` and refused a minute later. */
  lemma ResetTokenExpiryIsInclusive(r: UserRecord, token: string, issued: int)
    ensures !ResetTokenExpired(IssueResetToken(r, token, issued), issued + ResetTokenLifetime)
    ensures ResetTokenExpired(IssueResetToken(r, token, issued), issued + ResetTokenLifetime + 1)
  {
  }

  // ---------------------------------------------------------------------------
  // The handlers over the users table
  // ---------------------------------------------------------------------------

  class AccountService {
    /** The users table, keyed by e-mail. */
    var users: Users
    /** Every message published to the notification topic, oldest first. */
    var outbox: seq<Notification>
    /** Whether `SNS_TOPIC_ARN` is set; without it nothing is published. */
    const snsTopicConfigured: bool

    ghost predicate Valid()
      reads this
    {
      TableInvariant(users)
    }

    /** The messages that reach the topic when `msgs` are published in order. */
    function Published(msgs: seq<Notification>): seq<Notification>
    {
      if snsTopicConfigured then msgs else []
    }

    /** Binds the service to the users table as it stands; sending starts with an empty outbox. */
    constructor (initial: Users, snsTopicConfigured: bool)
      ensures users == initial && outbox == [] && this.snsTopicConfigured == snsTopicConfigured
      ensures Valid() <==> TableInvariant(initial)
    {
      users := initial;
      outbox := [];
      this.snsTopicConfigured := snsTopicConfigured;
    }

    /** `_send_email_via_sns`: publish when a topic is configured, otherwise only log. */
    method SendEmail(n: Notification)
      modifies this`outbox
      ensures outbox == old(outbox) + Published([n])
    {
      if snsTopicConfigured {
        outbox := outbox + [n];
      }
    }

    /** `signup`: validate the form, refuse a taken address, else create the account and send two messages. */
    method Signup(email: Email, name: string, password: string, confirmPassword: string,
                  now: int, randomId: bv32, salt: string, token: string) returns (o: Outcome)
      modifies this
      ensures password != confirmPassword ==> o == PasswordsDoNotMatch
      ensures password == confirmPassword && |password| < MinPasswordLength ==> o == PasswordTooShort
      ensures password == confirmPassword && |password| >= MinPasswordLength ==>
                o == (if email in old(users) then EmailAlreadyRegistered else AccountCreated)
      ensures o == AccountCreated ==>
                && users == old(users)[email := NewUserRecord(name, password, now, randomId, salt, token)]
                && outbox == old(outbox) + Published([Welcome(name), VerifyEmailLink(name, token)])
      ensures o != AccountCreated ==> users == old(users) && outbox == old(outbox)
      ensures AccountsPreserved(old(users), users)
      ensures old(Valid()) ==> Valid()
    {
      if password != confirmPassword {
        return PasswordsDoNotMatch;
      }
      if |password| < MinPasswordLength {
        return PasswordTooShort;
      }
      if email in users {
        return EmailAlreadyRegistered;
      }
      users := users[email := NewUserRecord(name, password, now, randomId, salt, token)];
      if snsTopicConfigured {
        outbox := outbox + [Welcome(name)];
      }
      SendEmail(VerifyEmailLink(name, token));
      o := AccountCreated;
    }

    /**
     * `login`: refuse inactive and unverified accounts before looking at the
     * password; on success through a legacy password, store its hash instead.
     */
    method Login(email: Email, password: string, now: int, salt: string) returns (o: Outcome)
      modifies this`users
      ensures o == LoginCheck(email, if email in old(users) then Some(old(users)[email]) else None, password)
      ensures o.LoggedIn? && email in old(users) && old(users)[email].passwordHash.None? ==>
                users == old(users)[email := MigrateLegacyPassword(old(users)[email], password, salt, now)]
      ensures !(o.LoggedIn? && email in old(users) && old(users)[email].passwordHash.None?) ==> users == old(users)
      ensures AccountsPreserved(old(users), users)
      ensures old(Valid()) ==> Valid()
    {
      if email !in users {
        return InvalidEmailOrPassword;
      }
      var user := users[email];
      if !StatusIsActive(user) {
        return AccountInactive;
      }
      if !user.emailVerified {
        return VerifyEmailFirst;
      }
      if user.passwordHash.Some? {
        if !CheckPasswordHash(user.passwordHash.value, password) {
          return InvalidEmailOrPassword;
        }
      } else {
        if user.password.None? || user.password.value == "" || user.password.value != password {
          return InvalidEmailOrPassword;
        }
        users := users[email := MigrateLegacyPassword(user, password, salt, now)];
      }
      o := LoggedIn(ToUser(email, user));
    }

    /**
     * `verify_email`: find a record holding the token's digest and mark it verified,
     * consuming the token. `scanned` is the record the scan yielded first.
     */
    method VerifyEmail(token: string, now: int) returns (o: Outcome, ghost scanned: Option<Email>)
      modifies this`users
      ensures token == "" ==> o == InvalidVerificationLink
      ensures token != "" && VerificationMatches(old(users), HashToken(token)) == {} ==> o == VerificationLinkInvalidOrExpired
      ensures token != "" && VerificationMatches(old(users), HashToken(token)) != {} ==> o == EmailVerified
      ensures scanned.Some? <==> o == EmailVerified
      ensures scanned.Some? ==>
                && scanned.value in VerificationMatches(old(users), HashToken(token))
                && users == old(users)[scanned.value := MarkVerified(old(users)[scanned.value], now)]
                && VerificationMatches(users, HashToken(token)) == VerificationMatches(old(users), HashToken(token)) - {scanned.value}
      ensures scanned.None? ==> users == old(users)
      ensures AccountsPreserved(old(users), users)
      ensures old(Valid()) ==> Valid()
    {
      scanned := None;
      if token == "" {
        return InvalidVerificationLink, scanned;
      }
      var h := HashToken(token);
      var items := set e | e in users && users[e].emailVerificationTokenHash == Some(h);
      if items == {} {
        return VerificationLinkInvalidOrExpired, scanned;
      }
      var e :| e in items;
      MarkVerifiedConsumesToken(users, e, h, now);
      users := users[e := MarkVerified(users[e], now)];
      scanned := Some(e);
      o := EmailVerified;
    }

    /**
     * `forgot_password`: issue a reset token to a verified account and mail it;
     * the answer is the same whether or not anything was issued.
     */
    method ForgotPassword(email: Email, now: int, token: string) returns (o: Outcome)
      modifies this
      ensures o == ResetLinkSentIfExists
      ensures email in old(users) && old(users)[email].emailVerified ==>
                && users == old(users)[email := IssueResetToken(old(users)[email], token, now)]
                && outbox == old(outbox) + Published([ResetPasswordLink(old(users)[email].name, token)])
      ensures !(email in old(users) && old(users)[email].emailVerified) ==>
                users == old(users) && outbox == old(outbox)
      ensures AccountsPreserved(old(users), users)
      ensures old(Valid()) ==> Valid()
    {
      if email in users && users[email].emailVerified {
        var user := users[email];
        users := users[email := IssueResetToken(user, token, now)];
        SendEmail(ResetPasswordLink(user.name, token));
      }
      o := ResetLinkSentIfExists;
    }

    /**
     * `reset_password` (form submission): validate the new password, find a record
     * holding the token's digest, refuse it once expired, else set the new password
     * and consume the token. `scanned` is the record the scan yielded first.
     */
    method ResetPassword(token: string, password: string, confirmPassword: string, now: int, salt: string)
      returns (o: Outcome, ghost scanned: Option<Email>)
      modifies this`users
      ensures token == "" ==> o == InvalidResetLink
      ensures token != "" && password != confirmPassword ==> o == PasswordsDoNotMatch
      ensures token != "" && password == confirmPassword && |password| < MinPasswordLength ==> o == PasswordTooShort
      ensures token != "" && password == confirmPassword && |password| >= MinPasswordLength ==>
                && (scanned.Some? <==> ResetMatches(old(users), HashToken(token)) != {})
                && (o == PasswordUpdated || o == ResetLinkInvalidOrExpired)
      ensures scanned.Some? ==> scanned.value in ResetMatches(old(users), HashToken(token))
      ensures o == PasswordUpdated <==> scanned.Some? && !ResetTokenExpired(old(users)[scanned.value], now)
      ensures o == PasswordUpdated ==>
                && users == old(users)[scanned.value := ApplyPasswordReset(old(users)[scanned.value], password, salt, now)]
                && ResetMatches(users, HashToken(token)) == ResetMatches(old(users), HashToken(token)) - {scanned.value}
      ensures o != PasswordUpdated ==> users == old(users)
      ensures AccountsPreserved(old(users), users)
      ensures old(Valid()) ==> Valid()
    {
      scanned := None;
      if token == "" {
        return InvalidResetLink, scanned;
      }
      var h := HashToken(token);
      if password != confirmPassword {
        return PasswordsDoNotMatch, scanned;
      }
      if |password| < MinPasswordLength {
        return PasswordTooShort, scanned;
      }
      var items := set e | e in users && users[e].resetTokenHash == Some(h);
      if items == {} {
        return ResetLinkInvalidOrExpired, scanned;
      }
      var e :| e in items;
      scanned := Some(e);
      if ResetTokenExpired(users[e], now) {
        return ResetLinkInvalidOrExpired, scanned;
      }
      ApplyResetConsumesToken(users, e, h, password, salt, now);
      users := users[e := ApplyPasswordReset(users[e], password, salt, now)];
      o := PasswordUpdated;
    }
  }
}
