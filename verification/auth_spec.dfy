/**
 * The four operations of `AuthService` as functions from the database before
 * the call to the database after it and the call's outcome.  Every `save` the
 * service makes before it raises is kept in the resulting database, because
 * the service runs without a surrounding transaction.
 */
module AuthSpec {
  import opened Wrappers
  import opened Errors
  import opened Entities
  import opened JwtUtil
  import opened RefreshTokenRepository
  import opened BlacklistedTokenRepository
  import opened Sweep
  import opened Persistence
  import opened Requests

  /** `MAX_LOGIN_ATTEMPTS`. */
  const MaxLoginAttempts: int := 5

  /** `LOCK_TIME_MINUTES` (30) in seconds. */
  const LockTimeSeconds: int := 30 * 60

  /** `MAX_REFRESH_TOKENS`. */
  const MaxRefreshTokens: nat := 5

  /** The password encoder: `encode` hashes a raw password, `matches(raw, hash)` checks one. */
  datatype PasswordEncoder = PasswordEncoder(encode: string -> string, matches: (string, string) -> bool)

  datatype LoginResponse = LoginResponse(userId: string, accessToken: string, refreshToken: string)

  /** The database after a call, and what the call returned or raised. */
  datatype Step<T> = Step(db: Db, result: Result<T, ErrorCode>)

  // ---------------------------------------------------------------- invariant

  /** A ledger row carries the subject and expiry written inside its own token. */
  predicate RecordMatchesToken(r: RefreshRecord) {
    var t := Peek(r.token);
    t.Some? && t.value.subject == r.owner && t.value.expiresAt == r.expiresAt
  }

  /**
   * What every reachable database satisfies: users are stored under their own
   * email, no two ledger rows hold the same token string, and each row agrees
   * with the claims of its token.
   */
  predicate Inv(db: Db) {
    (forall e :: e in db.users ==> db.users[e].email == e) &&
    TokensDistinct(db.ledger) &&
    (forall i {:trigger RecordMatchesToken(db.ledger[i])} :: 0 <= i < |db.ledger| ==> RecordMatchesToken(db.ledger[i]))
  }

  /** The random `jti` of a new refresh token appears in no stored token. */
  predicate FreshJti(ledger: seq<RefreshRecord>, jti: string) {
    forall i {:trigger OtherJti(ledger[i], jti)} :: 0 <= i < |ledger| ==> OtherJti(ledger[i], jti)
  }

  /** The token of `r` does not carry the identifier `jti`. */
  predicate OtherJti(r: RefreshRecord, jti: string) {
    Peek(r.token).Some? ==> Peek(r.token).value.jti != Some(jti)
  }

  // -------------------------------------------------------------- createUser

  /** The user `createUser` builds: enabled, created now, with the encoded password and role USER. */
  function RegisteredUser(req: RegisterRequest, id: string, encoder: PasswordEncoder, role: Role, now: int): User {
    NewUser(now).(id := id, nickname := req.nickname, email := req.email,
                  password := encoder.encode(req.password), isEnabled := true,
                  createdAt := now, roles := [role])
  }

  /** `createUser`; `id` is the identifier the database generates on insert. */
  function CreateUser(db: Db, req: RegisterRequest, id: string, encoder: PasswordEncoder, now: int): Step<()> {
    if req.email in db.users then Step(db, Err(UserAlreadyExists))
    else if "USER" !in db.roles then Step(db, Err(RoleNotFound))
    else if NicknameTaken(db.users, req.nickname) then Step(db, Err(DataIntegrityViolation))
    else Step(db.(users := db.users[req.email := RegisteredUser(req, id, encoder, db.roles["USER"], now)]), Ok(()))
  }

  // ------------------------------------------------------------------- login

  /** The checks `login` makes before looking at the password. */
  function LoginGuard(db: Db, email: string, now: int): Result<User, ErrorCode> {
    if email !in db.users then Err(UserNotFound)
    else if !db.users[email].isEnabled then Err(AccountNotEnabled)
    else if db.users[email].LockedAt(now) then Err(AccountLocked)
    else Ok(db.users[email])
  }

  /** A wrong password: one more failed attempt, and a 30-minute lock from the fifth on. */
  function RecordFailure(u: User, now: int): User {
    var n := u.failedLoginAttempts + 1;
    if n >= MaxLoginAttempts then u.(failedLoginAttempts := n, accountLockedUntil := Some(now + LockTimeSeconds))
    else u.(failedLoginAttempts := n)
  }

  /** A new active ledger row for a refresh token issued now. */
  function NewRecord(token: string, owner: string, now: int, expiresAt: int): RefreshRecord {
    RefreshRecord(token, owner, now, expiresAt, false, None)
  }

  /** `login`; `jti` is the random identifier of the refresh token it issues. */
  function Login(db: Db, email: string, password: string, encoder: PasswordEncoder,
                 secret: string, jti: string, now: int): Step<LoginResponse> {
    match LoginGuard(db, email, now)
    case Err(e) => Step(db, Err(e))
    case Ok(u) =>
      if encoder.matches(password, u.password) then
        var u' := u.(failedLoginAttempts := 0, lastLoginAt := Some(now));
        var db1 := db.(users := db.users[u.email := u']);
        var access := GenerateAccessToken(secret, u', now);
        var refresh := GenerateRefreshToken(secret, u', jti, now);
        match GetExpirationDateFromToken(secret, refresh, now)
        case Err(e) => Step(db1, Err(e))
        case Ok(exp) =>
          Step(db1.(ledger := db.ledger + [NewRecord(refresh, u.email, now, exp)]),
               Ok(LoginResponse(u.id, access, refresh)))
      else
        var u' := RecordFailure(u, now);
        Step(db.(users := db.users[u.email := u']),
             Err(if u'.failedLoginAttempts >= MaxLoginAttempts then TooManyAttempts else InvalidCredentials))
  }

  // ------------------------------------------------------------ refreshToken

  /** What the checks of `refreshToken` hand on: the ledger row to consume, its user, the old access token. */
  datatype Consumable = Consumable(index: nat, user: User, accessToken: string)

  /** The checks `refreshToken` makes before it saves anything. */
  function RefreshGuard(db: Db, refreshToken: Option<string>, accessToken: Option<string>,
                        secret: string, now: int): (r: Result<Consumable, ErrorCode>)
    ensures r.Ok? ==> refreshToken.Some? && r.value.index < |db.ledger|
    ensures r.Ok? ==> db.ledger[r.value.index].token == refreshToken.value
    ensures r.Ok? ==> accessToken == Some(r.value.accessToken) && r.value.accessToken != []
    ensures r.Ok? ==> !db.ledger[r.value.index].isRevoked
    ensures r.Ok? ==> ValidateToken(secret, refreshToken, now).Some? &&
                      ValidateToken(secret, refreshToken, now).value in db.users &&
                      r.value.user == db.users[ValidateToken(secret, refreshToken, now).value]
  {
    match ValidateToken(secret, refreshToken, now)
    case None => Err(InvalidToken)
    case Some(email) =>
      if accessToken.None? || accessToken.value == [] then Err(InvalidToken)
      else
        match FindByTokenAndIsRevokedFalse(db.ledger, refreshToken.value)
        case None => Err(TokenWasRevoked)
        case Some(i) =>
          if db.ledger[i].expiresAt < now then Err(TokenExpired)
          else if email !in db.users then Err(UserNotFound)
          else if !db.users[email].isEnabled then Err(AccountLocked)
          else if db.users[email].LockedAt(now) then Err(AccountLocked)
          else Ok(Consumable(i, db.users[email], accessToken.value))
  }

  /** Blacklists the old access token unless a row already holds it; reading its expiry may fail. */
  function BlacklistOldAccess(blacklist: Blacklist, secret: string, accessToken: string,
                              owner: string, now: int): Result<Blacklist, ErrorCode> {
    if ExistsByToken(blacklist, accessToken) then Ok(blacklist)
    else
      match GetExpirationDateFromToken(secret, accessToken, now)
      case Err(e) => Err(e)
      case Ok(exp) => Ok(blacklist[accessToken := BlacklistEntry(exp, now, owner)])
  }

  /** With five or more active rows left, the oldest active row of `owner` is revoked. */
  function TrimOldest(ledger: seq<RefreshRecord>, owner: string): (r: seq<RefreshRecord>)
    ensures |r| == |ledger|
  {
    if CountByUserAndIsRevokedFalse(ledger, owner) >= MaxRefreshTokens then
      match FindTopByUserAndIsRevokedFalseOrderByCreatedAtAsc(ledger, owner)
      case None => ledger
      case Some(j) => ledger[j := ledger[j].(isRevoked := true)]
    else ledger
  }

  /** The presented row marked revoked and used now. */
  function Consume(ledger: seq<RefreshRecord>, i: nat, now: int): (r: seq<RefreshRecord>)
    requires i < |ledger|
    ensures |r| == |ledger|
  {
    ledger[i := ledger[i].(isRevoked := true, lastUsedAt := Some(now))]
  }

  /** The saves of a refresh that passed its checks: consume, trim, issue a new pair and store the new row. */
  function Rotate(db: Db, c: Consumable, blacklist: Blacklist, secret: string, jti: string, now: int): Step<LoginResponse>
    requires c.index < |db.ledger|
  {
    var trimmed := TrimOldest(Consume(db.ledger, c.index, now), c.user.email);
    var access := GenerateAccessToken(secret, c.user, now);
    var refresh := GenerateRefreshToken(secret, c.user, jti, now);
    match GetExpirationDateFromToken(secret, refresh, now)
    case Err(e) => Step(db.(ledger := trimmed, blacklist := blacklist), Err(e))
    case Ok(exp) =>
      Step(db.(ledger := trimmed + [NewRecord(refresh, c.user.email, now, exp)], blacklist := blacklist),
           Ok(LoginResponse(c.user.id, access, refresh)))
  }

  /** A rotation always issues: the new refresh token's expiry reads back as now plus seven days. */
  lemma RotateIssues(db: Db, c: Consumable, blacklist: Blacklist, secret: string, jti: string, now: int)
    requires c.index < |db.ledger|
    ensures var refresh := GenerateRefreshToken(secret, c.user, jti, now);
            Rotate(db, c, blacklist, secret, jti, now) ==
            Step(db.(ledger := TrimOldest(Consume(db.ledger, c.index, now), c.user.email) +
                               [NewRecord(refresh, c.user.email, now, now + RefreshTokenTtl)],
                     blacklist := blacklist),
                 Ok(LoginResponse(c.user.id, GenerateAccessToken(secret, c.user, now), refresh)))
  {
    RefreshTokenValidates(secret, c.user, jti, now, now);
  }

  /** `refreshToken`, with the refresh token and the old access token as explicit arguments. */
  function Refresh(db: Db, refreshToken: Option<string>, accessToken: Option<string>,
                   secret: string, jti: string, now: int): Step<LoginResponse> {
    match RefreshGuard(db, refreshToken, accessToken, secret, now)
    case Err(e) => Step(db, Err(e))
    case Ok(c) =>
      match BlacklistOldAccess(db.blacklist, secret, c.accessToken, c.user.email, now)
      case Err(e) => Step(db, Err(e))
      case Ok(blacklist) => Rotate(db, c, blacklist, secret, jti, now)
  }

  // ------------------------------------------------------------------ logout

  /** `cleanupOldTokens`: the two-pass sweep of one user's ledger rows. */
  function CleanupOldTokens(db: Db, owner: string, now: int): Db {
    db.(ledger := SweepUser(db.ledger, owner, now).ledger)
  }

  /**
   * The saves of a `logout` whose refresh token passed its checks: the row is
   * marked revoked and used, the access token is blacklisted until its own
   * `exp`, and the user's rows are swept.
   */
  function EndSession(db: Db, i: nat, owner: string, accessToken: string, secret: string, now: int): Step<()>
    requires i < |db.ledger|
  {
    var db1 := db.(ledger := Consume(db.ledger, i, now));
    match GetExpirationDateFromToken(secret, accessToken, now)
    case Err(e) => Step(db1, Err(e))
    case Ok(exp) =>
      match Insert(db1.blacklist, accessToken, BlacklistEntry(exp, now, owner))
      case Err(e) => Step(db1, Err(e))
      case Ok(blacklist) => Step(CleanupOldTokens(db1.(blacklist := blacklist), owner, now), Ok(()))
  }

  /** `logout`, with the access token and the (possibly absent) refresh token as explicit arguments. */
  function Logout(db: Db, refreshToken: Option<string>, accessToken: string, secret: string, now: int): Step<()> {
    match ValidateToken(secret, refreshToken, now)
    case None => Step(db, Err(InvalidToken))
    case Some(email) =>
      if email !in db.users then Step(db, Err(UserNotFound))
      else
        match FindByToken(db.ledger, refreshToken.value)
        case None => Step(db, Err(InvalidToken))
        case Some(i) =>
          var rec := db.ledger[i];
          var user := db.users[email];
          if rec.owner != user.email then Step(db, Err(TokenNotBelongToUser))
          else if rec.isRevoked then Step(db, Err(TokenWasRevoked))
          else if rec.expiresAt < now then Step(db.(ledger := db.ledger[i := rec.(isRevoked := true)]), Err(TokenExpired))
          else EndSession(db, i, user.email, accessToken, secret, now)
  }
}
