/**
 * Revoked access tokens stay refused: `refreshToken` and `logout` put the
 * access token they retire on the blacklist, the filter refuses a
 * blacklisted token before anything else, and once the purge has removed a
 * row its token has expired, so the filter refuses it as unverifiable.
 */
module Revocation {
  import opened Wrappers
  import opened Errors
  import opened Entities
  import opened JwtUtil
  import opened BlacklistedTokenRepository
  import opened Persistence
  import opened AuthSpec
  import opened Rotation
  import opened LogoutFlow
  import opened JwtFilter

  /** Each blacklist row expires when its own token does. */
  predicate BlacklistCarriesExpiry(blacklist: Blacklist) {
    forall t :: t in blacklist ==> Peek(t).Some? && blacklist[t].expiresAt == Peek(t).value.expiresAt
  }

  /** A successful refresh leaves the old access token on the blacklist, whether or not it was already there. */
  lemma RefreshRevokesOldAccess(db: Db, refreshToken: Option<string>, accessToken: Option<string>,
                                secret: string, jti: string, now: int)
    requires Refresh(db, refreshToken, accessToken, secret, jti, now).result.Ok?
    ensures var s := Refresh(db, refreshToken, accessToken, secret, jti, now);
            accessToken.Some? && ExistsByToken(s.db.blacklist, accessToken.value) &&
            (forall t :: t in db.blacklist ==> t in s.db.blacklist && s.db.blacklist[t] == db.blacklist[t])
  {
    var c := RefreshGuard(db, refreshToken, accessToken, secret, now).value;
    var b := BlacklistOldAccess(db.blacklist, secret, c.accessToken, c.user.email, now);
    RefreshOkShape(db, refreshToken, accessToken, secret, jti, now);
    assert Refresh(db, refreshToken, accessToken, secret, jti, now).db.blacklist == b.value;
    if !ExistsByToken(db.blacklist, c.accessToken) {
      var exp := GetExpirationDateFromToken(secret, c.accessToken, now).value;
      assert b.value == db.blacklist[c.accessToken := BlacklistEntry(exp, now, c.user.email)];
    }
  }

  /** A successful logout leaves the presented access token on the blacklist. */
  lemma LogoutRevokesAccess(db: Db, refreshToken: Option<string>, accessToken: string, secret: string, now: int)
    requires Logout(db, refreshToken, accessToken, secret, now).result.Ok?
    ensures var s := Logout(db, refreshToken, accessToken, secret, now);
            ExistsByToken(s.db.blacklist, accessToken) &&
            (forall t :: t in db.blacklist ==> t in s.db.blacklist && s.db.blacklist[t] == db.blacklist[t])
  {
    LogoutOkPassesChecks(db, refreshToken, accessToken, secret, now);
    LogoutReachesEndSession(db, refreshToken, accessToken, secret, now);
    EndSessionEffects(db, RowOf(db, refreshToken, secret, now),
                      db.users[ValidateToken(secret, refreshToken, now).value].email, accessToken, secret, now);
  }

  /** Adding a row whose expiry was read by verifying its token keeps every row carrying its token's expiry. */
  lemma InsertVerifiedKeepsExpiry(blacklist: Blacklist, token: string, secret: string, now: int, revokedAt: int,
                                  owner: string)
    requires BlacklistCarriesExpiry(blacklist) && Verify(secret, token, now).Some?
    ensures BlacklistCarriesExpiry(blacklist[token := BlacklistEntry(Verify(secret, token, now).value.expiresAt,
                                                                     revokedAt, owner)])
  {
  }

  /** `refreshToken` records a blacklist row's expiry by verifying its token, so the rows keep carrying their tokens' expiry. */
  lemma RefreshKeepsBlacklistExpiry(db: Db, refreshToken: Option<string>, accessToken: Option<string>,
                                    secret: string, jti: string, now: int)
    requires BlacklistCarriesExpiry(db.blacklist)
    ensures BlacklistCarriesExpiry(Refresh(db, refreshToken, accessToken, secret, jti, now).db.blacklist)
  {
    var s := Refresh(db, refreshToken, accessToken, secret, jti, now);
    if s.result.Err? {
      RefreshErrorsSaveNothing(db, refreshToken, accessToken, secret, jti, now);
    } else {
      RefreshOkShape(db, refreshToken, accessToken, secret, jti, now);
      var c := RefreshGuard(db, refreshToken, accessToken, secret, now).value;
      if !ExistsByToken(db.blacklist, c.accessToken) {
        InsertVerifiedKeepsExpiry(db.blacklist, c.accessToken, secret, now, now, c.user.email);
      }
    }
  }

  /** So does `logout`. */
  lemma LogoutKeepsBlacklistExpiry(db: Db, refreshToken: Option<string>, accessToken: string, secret: string, now: int)
    requires BlacklistCarriesExpiry(db.blacklist)
    ensures BlacklistCarriesExpiry(Logout(db, refreshToken, accessToken, secret, now).db.blacklist)
  {
    var s := Logout(db, refreshToken, accessToken, secret, now);
    if s.result.Err? {
      LogoutErrorEffects(db, refreshToken, accessToken, secret, now);
    } else {
      var owner := db.users[ValidateToken(secret, refreshToken, now).value].email;
      LogoutOkPassesChecks(db, refreshToken, accessToken, secret, now);
      LogoutReachesEndSession(db, refreshToken, accessToken, secret, now);
      EndSessionEffects(db, RowOf(db, refreshToken, secret, now), owner, accessToken, secret, now);
      InsertVerifiedKeepsExpiry(db.blacklist, accessToken, secret, now, now, owner);
    }
  }

  /** The filter refuses a blacklisted token, whatever its signature and user. */
  lemma BlacklistedTokenRefused(users: map<string, User>, blacklist: Blacklist, token: string,
                                secret: string, now: int)
    requires token in blacklist && ' ' !in token
    ensures Decide(users, blacklist, Some(Bearer + token), secret, now) == Unauthorized(RevokedMessage)
  {
    BearerTokenExtracted(token);
  }

  /**
   * A blacklisted token stays refused after any purge up to now: a row the
   * purge removed belonged to a token that has expired, which no longer
   * verifies.
   */
  lemma RevokedStaysRejected(users: map<string, User>, blacklist: Blacklist, token: string,
                             secret: string, purgedAt: int, now: int)
    requires BlacklistCarriesExpiry(blacklist) && token in blacklist
    requires purgedAt <= now && ' ' !in token
    ensures Decide(users, BlacklistedTokenRepository.DeleteExpiredTokens(blacklist, purgedAt),
                   Some(Bearer + token), secret, now).Unauthorized?
  {
    var purged := BlacklistedTokenRepository.DeleteExpiredTokens(blacklist, purgedAt);
    if token in purged {
      BlacklistedTokenRefused(users, purged, token, secret, now);
    } else {
      BearerTokenExtracted(token);
      assert Peek(token).value.expiresAt < now;
      assert Verify(secret, token, now).None?;
      FilterDecisions(users, purged, Some(Bearer + token), secret, now);
    }
  }

  /** After a successful logout the filter refuses the access token that was logged out. */
  lemma LoggedOutAccessTokenRefused(db: Db, refreshToken: Option<string>, accessToken: string,
                                    secret: string, now: int, later: int)
    requires Logout(db, refreshToken, accessToken, secret, now).result.Ok? && ' ' !in accessToken
    ensures var s := Logout(db, refreshToken, accessToken, secret, now);
            Decide(s.db.users, s.db.blacklist, Some(Bearer + accessToken), secret, later) == Unauthorized(RevokedMessage)
  {
    LogoutRevokesAccess(db, refreshToken, accessToken, secret, now);
    var s := Logout(db, refreshToken, accessToken, secret, now);
    BlacklistedTokenRefused(s.db.users, s.db.blacklist, accessToken, secret, later);
  }

  /** After a successful refresh the filter refuses the old access token. */
  lemma RotatedAccessTokenRefused(db: Db, refreshToken: Option<string>, accessToken: Option<string>,
                                  secret: string, jti: string, now: int, later: int)
    requires Refresh(db, refreshToken, accessToken, secret, jti, now).result.Ok?
    requires accessToken.Some? && ' ' !in accessToken.value
    ensures var s := Refresh(db, refreshToken, accessToken, secret, jti, now);
            Decide(s.db.users, s.db.blacklist, Some(Bearer + accessToken.value), secret, later) ==
            Unauthorized(RevokedMessage)
  {
    RefreshRevokesOldAccess(db, refreshToken, accessToken, secret, jti, now);
    var s := Refresh(db, refreshToken, accessToken, secret, jti, now);
    BlacklistedTokenRefused(s.db.users, s.db.blacklist, accessToken.value, secret, later);
  }
}
