/**
 * `AuthService` as the Java class runs it: each method loads, checks and saves
 * through the repositories of one mutable `Store`, statement by statement, and
 * is proved to leave the store in the state, and return the outcome, that the
 * matching function of `AuthSpec` gives.  A raised `CustomException` is an
 * `Err` result; the saves made before it stay in the store.
 */
module Services {
  import opened Wrappers
  import opened Errors
  import opened Entities
  import opened JwtUtil
  import opened RefreshTokenRepository
  import opened BlacklistedTokenRepository
  import opened Sweep
  import opened Persistence
  import opened Requests
  import AuthSpec

  class AuthService {
    const store: Store
    const secret: string
    const encoder: AuthSpec.PasswordEncoder

    constructor(store: Store, secret: string, encoder: AuthSpec.PasswordEncoder)
      ensures this.store == store && this.secret == secret && this.encoder == encoder
    {
      this.store := store;
      this.secret := secret;
      this.encoder := encoder;
    }

    /** `createUser`; `id` is the identifier the database generates on insert. */
    method CreateUser(req: RegisterRequest, id: string, now: int) returns (r: Result<(), ErrorCode>)
      modifies store
      ensures AuthSpec.CreateUser(old(store.State()), req, id, encoder, now) == AuthSpec.Step(store.State(), r)
    {
      if req.email in store.users {
        return Err(UserAlreadyExists);
      }
      var user := NewUser(now).(nickname := req.nickname, email := req.email,
                                password := encoder.encode(req.password), isEnabled := true,
                                createdAt := now);
      if "USER" !in store.roles {
        return Err(RoleNotFound);
      }
      user := user.(roles := [store.roles["USER"]], id := id);
      var ok := store.InsertUser(user);
      if !ok {
        return Err(DataIntegrityViolation);
      }
      return Ok(());
    }

    /** `login`; `jti` is the random identifier of the refresh token it issues. */
    method Login(email: string, password: string, jti: string, now: int)
      returns (r: Result<AuthSpec.LoginResponse, ErrorCode>)
      modifies store
      ensures AuthSpec.Login(old(store.State()), email, password, encoder, secret, jti, now) ==
              AuthSpec.Step(store.State(), r)
    {
      if email !in store.users {
        return Err(UserNotFound);
      }
      var user := store.users[email];
      if !user.isEnabled {
        return Err(AccountNotEnabled);
      }
      if user.accountLockedUntil.Some? && user.accountLockedUntil.value > now {
        return Err(AccountLocked);
      }
      if encoder.matches(password, user.password) {
        user := user.(failedLoginAttempts := 0, lastLoginAt := Some(now));
        store.SaveUser(user);
        var accessToken := GenerateAccessToken(secret, user, now);
        var refreshToken := GenerateRefreshToken(secret, user, jti, now);
        var expiresAt := GetExpirationDateFromToken(secret, refreshToken, now);
        if expiresAt.Err? {
          return Err(expiresAt.error);
        }
        store.AppendRecord(AuthSpec.NewRecord(refreshToken, user.email, now, expiresAt.value));
        return Ok(AuthSpec.LoginResponse(user.id, accessToken, refreshToken));
      } else {
        user := user.(failedLoginAttempts := user.failedLoginAttempts + 1);
        if user.failedLoginAttempts >= AuthSpec.MaxLoginAttempts {
          user := user.(accountLockedUntil := Some(now + AuthSpec.LockTimeSeconds));
          store.SaveUser(user);
          return Err(TooManyAttempts);
        }
        store.SaveUser(user);
        return Err(InvalidCredentials);
      }
    }

    /** `refreshToken`; `jti` is the random identifier of the refresh token it issues. */
    method RefreshToken(refreshToken: Option<string>, oldAccessToken: Option<string>, jti: string, now: int)
      returns (r: Result<AuthSpec.LoginResponse, ErrorCode>)
      modifies store
      ensures AuthSpec.Refresh(old(store.State()), refreshToken, oldAccessToken, secret, jti, now) ==
              AuthSpec.Step(store.State(), r)
    {
      var checked := CheckRefreshRequest(refreshToken, oldAccessToken, now);
      if checked.Err? {
        return Err(checked.error);
      }
      var c := checked.value;
      ghost var before := store.State();
      var revoked := RevokeOldAccessToken(c.accessToken, c.user, now);
      if revoked.Err? {
        return Err(revoked.error);
      }
      ghost var revokedState := store.State();
      r := RotateTokens(c, jti, now);
      assert AuthSpec.Rotate(revokedState, c, store.blacklist, secret, jti, now) ==
             AuthSpec.Rotate(before, c, revokedState.blacklist, secret, jti, now);
    }

    /**
     * The checks of `refreshToken`, in order, up to the first save: the refresh
     * token's signature and expiry, the old access token's presence, an active
     * ledger row, that row's expiry, the user, and the user's state.
     */
    method CheckRefreshRequest(refreshToken: Option<string>, oldAccessToken: Option<string>, now: int)
      returns (r: Result<AuthSpec.Consumable, ErrorCode>)
      ensures r == AuthSpec.RefreshGuard(store.State(), refreshToken, oldAccessToken, secret, now)
    {
      var email := ValidateToken(secret, refreshToken, now);
      if email.None? {
        return Err(InvalidToken);
      }
      if oldAccessToken.None? || oldAccessToken.value == [] {
        return Err(InvalidToken);
      }
      var found := FindByTokenAndIsRevokedFalse(store.ledger, refreshToken.value);
      if found.None? {
        return Err(TokenWasRevoked);
      }
      var i := found.value;
      var token := store.ledger[i];
      if token.expiresAt < now {
        // the record is marked revoked in memory only: it is never saved
        return Err(TokenExpired);
      }
      if email.value !in store.users {
        return Err(UserNotFound);
      }
      var user := store.users[email.value];
      if !user.isEnabled {
        return Err(AccountLocked);
      }
      if user.accountLockedUntil.Some? && user.accountLockedUntil.value > now {
        return Err(AccountLocked);
      }
      return Ok(AuthSpec.Consumable(i, user, oldAccessToken.value));
    }

    /** Blacklists the old access token until its own `exp`, unless a row already holds it. */
    method RevokeOldAccessToken(oldAccessToken: string, user: User, now: int) returns (r: Result<(), ErrorCode>)
      modifies store
      ensures var b := AuthSpec.BlacklistOldAccess(old(store.blacklist), secret, oldAccessToken, user.email, now);
              if b.Ok? then r.Ok? && store.State() == old(store.State()).(blacklist := b.value)
              else r == Err(b.error) && store.State() == old(store.State())
    {
      if !ExistsByToken(store.blacklist, oldAccessToken) {
        var expiresAt := GetExpirationDateFromToken(secret, oldAccessToken, now);
        if expiresAt.Err? {
          return Err(expiresAt.error);
        }
        r := store.SaveBlacklisted(oldAccessToken, BlacklistEntry(expiresAt.value, now, user.email));
      } else {
        r := Ok(());
      }
    }

    /**
     * The saves of a refresh that passed its checks: the presented row is
     * consumed, the oldest active row goes when five or more remain, and a new
     * pair is issued and its refresh row stored.
     */
    method RotateTokens(c: AuthSpec.Consumable, jti: string, now: int) returns (r: Result<AuthSpec.LoginResponse, ErrorCode>)
      requires c.index < |store.ledger|
      modifies store
      ensures AuthSpec.Rotate(old(store.State()), c, old(store.blacklist), secret, jti, now) ==
              AuthSpec.Step(store.State(), r)
    {
      var user := c.user;
      store.SaveRecordAt(c.index, store.ledger[c.index].(isRevoked := true, lastUsedAt := Some(now)));
      var activeRefreshTokens := CountByUserAndIsRevokedFalse(store.ledger, user.email);
      if activeRefreshTokens >= AuthSpec.MaxRefreshTokens {
        var oldest := FindTopByUserAndIsRevokedFalseOrderByCreatedAtAsc(store.ledger, user.email);
        if oldest.Some? {
          store.SaveRecordAt(oldest.value, store.ledger[oldest.value].(isRevoked := true));
        }
      }
      assert store.ledger == AuthSpec.TrimOldest(AuthSpec.Consume(old(store.ledger), c.index, now), user.email);
      var newAccessToken := GenerateAccessToken(secret, user, now);
      var newRefreshToken := GenerateRefreshToken(secret, user, jti, now);
      var expiresAt := GetExpirationDateFromToken(secret, newRefreshToken, now);
      if expiresAt.Err? {
        return Err(expiresAt.error);
      }
      store.AppendRecord(AuthSpec.NewRecord(newRefreshToken, user.email, now, expiresAt.value));
      return Ok(AuthSpec.LoginResponse(user.id, newAccessToken, newRefreshToken));
    }

    /** `logout`, with the bearer access token and the (possibly absent) refresh token of the request. */
    method Logout(refreshToken: Option<string>, accessToken: string, now: int) returns (r: Result<(), ErrorCode>)
      modifies store
      ensures AuthSpec.Logout(old(store.State()), refreshToken, accessToken, secret, now) ==
              AuthSpec.Step(store.State(), r)
    {
      var email := ValidateToken(secret, refreshToken, now);
      if email.None? {
        return Err(InvalidToken);
      }
      if email.value !in store.users {
        return Err(UserNotFound);
      }
      var user := store.users[email.value];
      var found := FindByToken(store.ledger, refreshToken.value);
      if found.None? {
        return Err(InvalidToken);
      }
      var i := found.value;
      var token := store.ledger[i];
      if token.owner != user.email {
        return Err(TokenNotBelongToUser);
      }
      if token.isRevoked {
        return Err(TokenWasRevoked);
      }
      if token.expiresAt < now {
        store.SaveRecordAt(i, token.(isRevoked := true));
        return Err(TokenExpired);
      }
      ghost var before := store.State();
      store.SaveRecordAt(i, token.(isRevoked := true, lastUsedAt := Some(now)));
      assert store.State() == before.(ledger := AuthSpec.Consume(before.ledger, i, now));
      var expiresAt := GetExpirationDateFromToken(secret, accessToken, now);
      if expiresAt.Err? {
        return Err(expiresAt.error);
      }
      var saved := store.SaveBlacklisted(accessToken, BlacklistEntry(expiresAt.value, now, user.email));
      if saved.Err? {
        return Err(saved.error);
      }
      CleanupOldTokens(user.email, now);
      return Ok(());
    }

    /** `cleanupOldTokens`: revoke the user's expired active rows, then every active row after the five newest. */
    method CleanupOldTokens(owner: string, now: int)
      modifies store
      ensures store.State() == AuthSpec.CleanupOldTokens(old(store.State()), owner, now)
    {
      var expired := FindByUserAndExpiresAtBeforeAndIsRevokedFalse(store.ledger, owner, now);
      store.RevokeEach(expired);
      var ordered := FindByUserAndIsRevokedFalseOrderByCreatedAtDesc(store.ledger, owner);
      var excess := Skip(ordered, Keep);
      assert forall k :: 0 <= k < |excess| ==> excess[k] in ordered;
      store.RevokeEach(excess);
    }
  }
}
