/**
 * The account-protection state machine of `login`: the failed-attempt counter,
 * the 30-minute lock, and how the lock boundary reads in `login` and in
 * `User.isAccountNonLocked`.
 */
module Lockout {
  import opened Wrappers
  import opened Errors
  import opened Entities
  import opened JwtUtil
  import opened RefreshTokenRepository
  import opened Persistence
  import opened AuthSpec

  /** An unknown email, a disabled account and a current lock are refused before the password is looked at, with nothing saved. */
  lemma LoginRejectsBeforePasswordCheck(db: Db, email: string, password: string, encoder: PasswordEncoder,
                                        secret: string, jti: string, now: int)
    ensures email !in db.users ==>
              Login(db, email, password, encoder, secret, jti, now) == Step(db, Err(UserNotFound))
    ensures email in db.users && !db.users[email].isEnabled ==>
              Login(db, email, password, encoder, secret, jti, now) == Step(db, Err(AccountNotEnabled))
    ensures email in db.users && db.users[email].isEnabled && db.users[email].LockedAt(now) ==>
              Login(db, email, password, encoder, secret, jti, now) == Step(db, Err(AccountLocked))
  {
  }

  /**
   * A successful login resets the counter, records the login time, and appends
   * exactly one active row whose expiry is the refresh token's own `exp`;
   * no ceiling applies, so the user's active count grows by one.
   */
  lemma LoginSuccess(db: Db, email: string, password: string, encoder: PasswordEncoder,
                     secret: string, jti: string, now: int)
    requires Inv(db)
    requires LoginGuard(db, email, now).Ok? && encoder.matches(password, db.users[email].password)
    ensures var s := Login(db, email, password, encoder, secret, jti, now);
            var u := db.users[email];
            s.result.Ok? && s.result.value.userId == u.id &&
            s.db.users == db.users[email := u.(failedLoginAttempts := 0, lastLoginAt := Some(now))] &&
            s.db.ledger == db.ledger + [NewRecord(s.result.value.refreshToken, email, now, now + RefreshTokenTtl)] &&
            s.db.blacklist == db.blacklist && s.db.roles == db.roles &&
            Peek(s.result.value.refreshToken).Some? &&
            Peek(s.result.value.refreshToken).value.expiresAt == now + RefreshTokenTtl &&
            ValidateToken(secret, Some(s.result.value.accessToken), now) == Some(email) &&
            CountByUserAndIsRevokedFalse(s.db.ledger, email) == CountByUserAndIsRevokedFalse(db.ledger, email) + 1
  {
    var u := db.users[email];
    var u' := u.(failedLoginAttempts := 0, lastLoginAt := Some(now));
    var refresh := GenerateRefreshToken(secret, u', jti, now);
    RefreshTokenValidates(secret, u', jti, now, now);
    RefreshTokenClaims(secret, u', jti, now);
    AccessTokenValidates(secret, u', now, now);
    CountAppend(db.ledger, NewRecord(refresh, email, now, now + RefreshTokenTtl), email);
  }

  /**
   * A wrong password raises the counter by exactly one and saves the user
   * before raising: from the fifth failure on with a lock until now + 30 min
   * and TOO_MANY_ATTEMPTS, before that with INVALID_CREDENTIALS.
   */
  lemma LoginFailure(db: Db, email: string, password: string, encoder: PasswordEncoder,
                     secret: string, jti: string, now: int)
    requires Inv(db)
    requires LoginGuard(db, email, now).Ok? && !encoder.matches(password, db.users[email].password)
    ensures var s := Login(db, email, password, encoder, secret, jti, now);
            var u := db.users[email];
            var n := u.failedLoginAttempts + 1;
            s.db == db.(users := db.users[email := s.db.users[email]]) &&
            email in s.db.users &&
            s.db.users[email].failedLoginAttempts == n &&
            (n >= MaxLoginAttempts ==>
               s.db.users[email] == u.(failedLoginAttempts := n, accountLockedUntil := Some(now + LockTimeSeconds)) &&
               s.result == Err(TooManyAttempts)) &&
            (n < MaxLoginAttempts ==>
               s.db.users[email] == u.(failedLoginAttempts := n) && s.result == Err(InvalidCredentials))
  {
  }

  /** Only a successful login puts the counter back to zero; every other outcome keeps or raises it. */
  lemma CounterResetOnlyBySuccess(db: Db, email: string, password: string, encoder: PasswordEncoder,
                                  secret: string, jti: string, now: int)
    requires Inv(db) && email in db.users
    ensures var s := Login(db, email, password, encoder, secret, jti, now);
            email in s.db.users &&
            (s.result.Ok? <==> s.db.users[email].failedLoginAttempts == 0 && LoginGuard(db, email, now).Ok? &&
                               encoder.matches(password, db.users[email].password)) &&
            (s.result.Err? ==> s.db.users[email].failedLoginAttempts >= db.users[email].failedLoginAttempts)
  {
    var u := db.users[email];
    if LoginGuard(db, email, now).Ok? && encoder.matches(password, u.password) {
      LoginSuccess(db, email, password, encoder, secret, jti, now);
    } else if LoginGuard(db, email, now).Ok? {
      LoginFailure(db, email, password, encoder, secret, jti, now);
    }
  }

  /** Logins at the given instants, one after the other, all with the same password. */
  function LoginAll(db: Db, email: string, password: string, encoder: PasswordEncoder,
                    secret: string, jti: string, times: seq<int>): Step<LoginResponse>
    requires |times| > 0
    decreases |times|
  {
    var s := Login(db, email, password, encoder, secret, jti, times[0]);
    if |times| == 1 then s else LoginAll(s.db, email, password, encoder, secret, jti, times[1..])
  }

  /**
   * From `c` failed attempts and no lock in force at any of the attempts (none
   * at all, or one that has lapsed, as a later success leaves it), `5 - c`
   * consecutive wrong passwords lock the account at the last of them, for 30
   * minutes, with TOO_MANY_ATTEMPTS; every shorter run of the same attempts
   * ends with INVALID_CREDENTIALS, so each attempt before the last answers so.
   */
  lemma {:induction false} ConsecutiveFailuresLock(db: Db, email: string, password: string, encoder: PasswordEncoder,
                                                   secret: string, jti: string, times: seq<int>)
    requires Inv(db) && email in db.users
    requires db.users[email].isEnabled
    requires var lock := db.users[email].accountLockedUntil;
             lock.None? || forall k :: 0 <= k < |times| ==> lock.value <= times[k]
    requires 0 <= db.users[email].failedLoginAttempts < MaxLoginAttempts
    requires !encoder.matches(password, db.users[email].password)
    requires |times| == MaxLoginAttempts - db.users[email].failedLoginAttempts
    ensures var s := LoginAll(db, email, password, encoder, secret, jti, times);
            s.result == Err(TooManyAttempts) &&
            email in s.db.users &&
            s.db.users[email].failedLoginAttempts == MaxLoginAttempts &&
            s.db.users[email].accountLockedUntil == Some(times[|times| - 1] + LockTimeSeconds) &&
            s.db.ledger == db.ledger && s.db.blacklist == db.blacklist
    ensures forall m :: 1 <= m < |times| ==>
              LoginAll(db, email, password, encoder, secret, jti, times[..m]).result == Err(InvalidCredentials)
    decreases |times|
  {
    var s := Login(db, email, password, encoder, secret, jti, times[0]);
    LoginFailure(db, email, password, encoder, secret, jti, times[0]);
    if |times| > 1 {
      assert Inv(s.db);
      assert s.db.users[email].accountLockedUntil == db.users[email].accountLockedUntil;
      var rest := times[1..];
      ConsecutiveFailuresLock(s.db, email, password, encoder, secret, jti, rest);
      forall m | 1 <= m < |times|
        ensures LoginAll(db, email, password, encoder, secret, jti, times[..m]).result == Err(InvalidCredentials)
      {
        if m > 1 {
          assert times[..m][1..] == rest[..m - 1];
        }
      }
    }
  }

  /**
   * Once a failure has locked the account at `now`, every login before
   * `now + 30 min` is refused with ACCOUNT_LOCKED and saves nothing, even with
   * the right password.
   */
  lemma LockedOutForThirtyMinutes(db: Db, email: string, password: string, password2: string,
                                  encoder: PasswordEncoder, secret: string, jti: string, jti2: string,
                                  now: int, later: int)
    requires Inv(db)
    requires LoginGuard(db, email, now).Ok? && !encoder.matches(password, db.users[email].password)
    requires db.users[email].failedLoginAttempts >= MaxLoginAttempts - 1
    requires now <= later < now + LockTimeSeconds
    ensures var s := Login(db, email, password, encoder, secret, jti, now);
            s.result == Err(TooManyAttempts) &&
            Login(s.db, email, password2, encoder, secret, jti2, later) == Step(s.db, Err(AccountLocked))
  {
    LoginFailure(db, email, password, encoder, secret, jti, now);
  }

  /**
   * At the instant the lock ends `login` lets the user through to the password
   * check, while `isAccountNonLocked` still reports the account as locked; one
   * second later both agree it is unlocked.
   */
  lemma LockBoundary(u: User, until: int)
    requires u.accountLockedUntil == Some(until)
    ensures u.LockedAt(until - 1) && !u.IsAccountNonLocked(until - 1)
    ensures !u.LockedAt(until) && !u.IsAccountNonLocked(until)
    ensures !u.LockedAt(until + 1) && u.IsAccountNonLocked(until + 1)
  {
  }

  /** `isAccountNonLocked`: no lock, or a lock strictly before now. */
  lemma IsAccountNonLockedMeaning(u: User, now: int)
    ensures u.IsAccountNonLocked(now) <==> u.accountLockedUntil.None? || u.accountLockedUntil.value < now
    ensures u.IsAccountNonLocked(now) ==> !u.LockedAt(now)
  {
  }

  /**
   * The counter is not reset when a lock lapses: the first wrong password after
   * the lapse locks the account again at once.
   */
  lemma RelockAfterLapse(db: Db, email: string, password: string, encoder: PasswordEncoder,
                         secret: string, jti: string, later: int)
    requires Inv(db)
    requires LoginGuard(db, email, later).Ok? && !encoder.matches(password, db.users[email].password)
    requires db.users[email].failedLoginAttempts >= MaxLoginAttempts
    ensures var s := Login(db, email, password, encoder, secret, jti, later);
            s.result == Err(TooManyAttempts) &&
            s.db.users[email].accountLockedUntil == Some(later + LockTimeSeconds)
  {
    LoginFailure(db, email, password, encoder, secret, jti, later);
  }
}
