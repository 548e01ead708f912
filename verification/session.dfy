/**
 * Session handling from app/bootstrap.php (periodic id regeneration in
 * `startSecureSession`, CSRF tokens, `isAuthenticated`) and the session
 * transitions of the login and logout handlers in api/index.php.
 * Randomness (`random_bytes`, new session ids) arrives as parameters.
 */
module Session {
  import opened Wrappers
  import opened PhpStrings
  import RateLimit

  /** The `$_SESSION` variables the application uses; None means "not set". */
  datatype Session = Session(
    id: string,
    created: Option<int>,
    csrfToken: Option<string>,
    userId: Option<int>,
    userEmail: Option<string>,
    userRole: Option<string>)

  /** Seconds after which a session id is replaced. */
  const RegenerateAfter: int := 1800

  /** A session as `session_start` creates it for a new id. */
  function EmptySession(id: string): Session {
    Session(id, None, None, None, None, None)
  }

  // ---------------------------------------------------------------------------
  // startSecureSession
  // ---------------------------------------------------------------------------

  /**
   * The id-regeneration rule of `startSecureSession` at time `now`.
   * `alreadyActive` is `session_status() !== PHP_SESSION_NONE`, which skips
   * the whole block; `freshId` is the id `session_regenerate_id` picks.
   */
  function StartSecureSession(s: Session, alreadyActive: bool, now: int, freshId: string): (r: Session)
    ensures alreadyActive ==> r == s
    ensures !alreadyActive ==> r.created.Some? && now - r.created.value <= RegenerateAfter
    ensures r.csrfToken == s.csrfToken && r.userId == s.userId
    ensures r.userEmail == s.userEmail && r.userRole == s.userRole
    ensures r.id != s.id ==> r.id == freshId && r.created == Some(now)
    ensures !alreadyActive && s.created.Some? && now - s.created.value > RegenerateAfter
            ==> r.id == freshId && r.created == Some(now)
    ensures s.created.Some? && now - s.created.value <= RegenerateAfter ==> r == s
    ensures !alreadyActive && s.created.None? ==> r == s.(created := Some(now))
    ensures !alreadyActive && s.created.Some? && now - s.created.value > RegenerateAfter
            ==> r == s.(id := freshId, created := Some(now))
  {
    if alreadyActive then s
    else if s.created.None? then s.(created := Some(now))
    else if now - s.created.value > RegenerateAfter then s.(id := freshId, created := Some(now))
    else s
  }

  // ---------------------------------------------------------------------------
  // CSRF
  // ---------------------------------------------------------------------------

  /**
   * `generateCSRFToken`: keeps an existing token, otherwise stores `newToken`
   * (the hex of 32 random bytes). Returns the session and the token.
   */
  function GenerateCsrfToken(s: Session, newToken: string): (r: (Session, string))
    ensures r.0.csrfToken == Some(r.1)
    ensures s.csrfToken.Some? ==> r.0 == s && r.1 == s.csrfToken.value
    ensures s.csrfToken.None? ==> r.1 == newToken
    ensures r.0 == s.(csrfToken := r.0.csrfToken)
  {
    if s.csrfToken.Some? then (s, s.csrfToken.value) else (s.(csrfToken := Some(newToken)), newToken)
  }

  /** `validateCSRFToken`: a token is set and equals the submitted one. */
  function ValidateCsrfToken(s: Session, token: string): (r: bool)
    ensures r <==> s.csrfToken == Some(token)
  {
    s.csrfToken.Some? && s.csrfToken.value == token
  }

  /**
   * Once a token exists, generating again returns it unchanged, whatever
   * fresh randomness is offered, and the returned token validates.
   */
  lemma CsrfTokenStable(s: Session, fresh1: string, fresh2: string)
    ensures GenerateCsrfToken(GenerateCsrfToken(s, fresh1).0, fresh2) == GenerateCsrfToken(s, fresh1)
    ensures ValidateCsrfToken(GenerateCsrfToken(s, fresh1).0, GenerateCsrfToken(s, fresh1).1)
    ensures forall t :: ValidateCsrfToken(GenerateCsrfToken(s, fresh1).0, t) ==> t == GenerateCsrfToken(s, fresh1).1
  {
  }

  // ---------------------------------------------------------------------------
  // Authentication
  // ---------------------------------------------------------------------------

  /** `isAuthenticated`: both `user_id` and `user_email` are set. */
  predicate IsAuthenticated(s: Session) {
    s.userId.Some? && s.userEmail.Some?
  }

  /** The user row the login handler looks up by email. */
  datatype User = User(id: int, email: string, role: string)

  /** The HTTP outcome of `handleLogin`. */
  datatype LoginResult =
    | TooManyAttempts      // 429
    | MissingCredentials   // 400
    | InvalidCredentials   // 401
    | LoggedIn(user: User, csrfToken: string)

  /** Attempts allowed per client address, and the window in seconds. */
  const LoginLimit: int := 5
  const LoginWindow: int := 900

  /**
   * `handleLogin` after the session is started: rate limit on
   * "login:<ip>", the `empty()` checks, then the lookup (`user`) and
   * `password_verify` (`passwordMatches`) as oracles. On success the id is
   * regenerated before the user is stored, and a new CSRF token is issued.
   */
  function Login(s: Session, limits: seq<RateLimit.Entry>, now: int, storeFails: bool, ip: string,
                 email: string, password: string, user: Option<User>, passwordMatches: bool,
                 freshId: string, freshToken: string)
    : (r: (LoginResult, Session, seq<RateLimit.Entry>))
    ensures r.2 == RateLimit.CheckRateLimit(limits, "login:" + ip, LoginLimit, LoginWindow, now, storeFails).table
    ensures !r.0.LoggedIn? ==> r.1 == s
    ensures r.0.LoggedIn? <==>
              RateLimit.CheckRateLimit(limits, "login:" + ip, LoginLimit, LoginWindow, now, storeFails).allowed
              && !IsEmptyString(email) && !IsEmptyString(password) && user.Some? && passwordMatches
    ensures r.0.LoggedIn? ==> IsAuthenticated(r.1) && r.1.id == freshId
                              && r.1.userId == Some(r.0.user.id)
                              && ValidateCsrfToken(r.1, r.0.csrfToken) && r.0.csrfToken == freshToken
    ensures r.0.LoggedIn? ==>
              && r.0 == LoggedIn(user.value, freshToken)
              && r.1 == s.(id := freshId, userId := Some(user.value.id), userEmail := Some(user.value.email),
                           userRole := Some(user.value.role), csrfToken := Some(freshToken))
    ensures r.0 == TooManyAttempts <==>
              !RateLimit.CheckRateLimit(limits, "login:" + ip, LoginLimit, LoginWindow, now, storeFails).allowed
    ensures r.0 == MissingCredentials <==>
              RateLimit.CheckRateLimit(limits, "login:" + ip, LoginLimit, LoginWindow, now, storeFails).allowed
              && (IsEmptyString(email) || IsEmptyString(password))
    ensures r.0 == InvalidCredentials <==>
              RateLimit.CheckRateLimit(limits, "login:" + ip, LoginLimit, LoginWindow, now, storeFails).allowed
              && !IsEmptyString(email) && !IsEmptyString(password) && (user.None? || !passwordMatches)
  {
    var d := RateLimit.CheckRateLimit(limits, "login:" + ip, LoginLimit, LoginWindow, now, storeFails);
    if !d.allowed then (TooManyAttempts, s, d.table)
    else if IsEmptyString(email) || IsEmptyString(password) then (MissingCredentials, s, d.table)
    else if user.None? || !passwordMatches then (InvalidCredentials, s, d.table)
    else
      var u := user.value;
      var s' := s.(id := freshId, userId := Some(u.id), userEmail := Some(u.email),
                   userRole := Some(u.role), csrfToken := Some(freshToken));
      (LoggedIn(u, freshToken), s', d.table)
  }

  /** The login limit holds over any run of attempts from one address. */
  lemma LoginAttemptsBounded(ip: string, times: seq<int>)
    requires |times| > 0 && RateLimit.Nondecreasing(times)
    ensures RateLimit.CountRecent(RateLimit.Run([], "login:" + ip, LoginLimit, LoginWindow, times),
                                  "login:" + ip, times[|times| - 1] - LoginWindow) <= LoginLimit
  {
    RateLimit.RunStaysWithinLimit("login:" + ip, LoginLimit, LoginWindow, times);
  }

  /**
   * `handleLogout`: `session_destroy` drops every variable, so the next
   * request under the same id sees an empty session.
   */
  function Logout(s: Session): (r: Session)
    ensures !IsAuthenticated(r)
    ensures forall t :: !ValidateCsrfToken(r, t)
    ensures r.id == s.id
  {
    EmptySession(s.id)
  }
}
