/**
 * `logout`: which presented refresh tokens it refuses, what it saves before
 * it can still fail, and the state a successful logout leaves behind.
 */
module LogoutFlow {
  import opened Wrappers
  import opened Errors
  import opened Entities
  import opened JwtUtil
  import opened RefreshTokenRepository
  import opened BlacklistedTokenRepository
  import opened Sweep
  import opened Persistence
  import opened AuthSpec
  import opened Invariants
  import opened Rotation

  /** The presented refresh token passed every check of `logout` that comes before the first save. */
  predicate PassesChecks(db: Db, refreshToken: Option<string>, secret: string, now: int) {
    var email := ValidateToken(secret, refreshToken, now);
    email.Some? && email.value in db.users &&
    FindByToken(db.ledger, refreshToken.value).Some? &&
    var rec := db.ledger[FindByToken(db.ledger, refreshToken.value).value];
    rec.owner == db.users[email.value].email && !rec.isRevoked && !(rec.expiresAt < now)
  }

  /** The row of the refresh token that passed the checks. */
  function RowOf(db: Db, refreshToken: Option<string>, secret: string, now: int): (i: nat)
    requires PassesChecks(db, refreshToken, secret, now)
    ensures i < |db.ledger| && db.ledger[i].token == refreshToken.value
  {
    FindByToken(db.ledger, refreshToken.value).value
  }

  /** Once the checks pass, `logout` goes on to the saves of `EndSession` for the token's user. */
  lemma LogoutReachesEndSession(db: Db, refreshToken: Option<string>, accessToken: string, secret: string, now: int)
    requires PassesChecks(db, refreshToken, secret, now)
    ensures var owner := db.users[ValidateToken(secret, refreshToken, now).value].email;
            Logout(db, refreshToken, accessToken, secret, now) ==
            EndSession(db, RowOf(db, refreshToken, secret, now), owner, accessToken, secret, now)
  {
  }

  /**
   * The saves of `EndSession` in their order: the row is revoked and used
   * before the access token's expiry is read, and before the blacklist insert
   * that a duplicate token makes fail.
   */
  lemma EndSessionEffects(db: Db, i: nat, owner: string, accessToken: string, secret: string, now: int)
    requires i < |db.ledger|
    ensures var s := EndSession(db, i, owner, accessToken, secret, now);
            var used := db.(ledger := Consume(db.ledger, i, now));
            (Verify(secret, accessToken, now).None? ==> s == Step(used, Err(FailedToGetExpirationTime))) &&
            (Verify(secret, accessToken, now).Some? && ExistsByToken(db.blacklist, accessToken) ==>
               s == Step(used, Err(DataIntegrityViolation))) &&
            (Verify(secret, accessToken, now).Some? && !ExistsByToken(db.blacklist, accessToken) ==>
               s == Step(CleanupOldTokens(used.(blacklist := db.blacklist[accessToken :=
                           BlacklistEntry(Verify(secret, accessToken, now).value.expiresAt, now, owner)]), owner, now),
                         Ok(())))
  {
  }

  /**
   * The refusals of `logout`. An invalid token, an unknown user or an unknown
   * row save nothing; so do a row of another user and a revoked row. An expired
   * row is still marked revoked before TOKEN_EXPIRED is raised.
   */
  lemma LogoutChecks(db: Db, refreshToken: Option<string>, accessToken: string, secret: string, now: int)
    ensures var s := Logout(db, refreshToken, accessToken, secret, now);
            var email := ValidateToken(secret, refreshToken, now);
            (email.None? ==> s == Step(db, Err(InvalidToken))) &&
            (email.Some? && email.value !in db.users ==> s == Step(db, Err(UserNotFound))) &&
            (email.Some? && email.value in db.users && FindByToken(db.ledger, refreshToken.value).None? ==>
               s == Step(db, Err(InvalidToken))) &&
            (email.Some? && email.value in db.users && FindByToken(db.ledger, refreshToken.value).Some? ==>
               var i := FindByToken(db.ledger, refreshToken.value).value;
               var rec := db.ledger[i];
               (rec.owner != db.users[email.value].email ==> s == Step(db, Err(TokenNotBelongToUser))) &&
               (rec.owner == db.users[email.value].email && rec.isRevoked ==> s == Step(db, Err(TokenWasRevoked))) &&
               (rec.owner == db.users[email.value].email && !rec.isRevoked && rec.expiresAt < now ==>
                  s == Step(db.(ledger := db.ledger[i := rec.(isRevoked := true)]), Err(TokenExpired))))
  {
  }

  /**
   * After the first save `logout` can still fail: an access token that does
   * not verify raises FAILED_TO_GET_EXPIRATION_TIME and one already
   * blacklisted breaks the unique key, yet the refresh row stays revoked.
   */
  lemma LogoutFailsAfterRevoking(db: Db, refreshToken: Option<string>, accessToken: string, secret: string, now: int)
    requires PassesChecks(db, refreshToken, secret, now)
    ensures var s := Logout(db, refreshToken, accessToken, secret, now);
            var used := db.(ledger := Consume(db.ledger, RowOf(db, refreshToken, secret, now), now));
            (Verify(secret, accessToken, now).None? ==> s == Step(used, Err(FailedToGetExpirationTime))) &&
            (Verify(secret, accessToken, now).Some? && ExistsByToken(db.blacklist, accessToken) ==>
               s == Step(used, Err(DataIntegrityViolation)))
  {
    LogoutReachesEndSession(db, refreshToken, accessToken, secret, now);
    EndSessionEffects(db, RowOf(db, refreshToken, secret, now), db.users[ValidateToken(secret, refreshToken, now).value].email,
                      accessToken, secret, now);
  }

  /**
   * A failed `logout` leaves users, roles and blacklist alone, and changes at
   * most the presented row, from active to revoked; it does so only with
   * TOKEN_EXPIRED, FAILED_TO_GET_EXPIRATION_TIME or a unique-key violation.
   */
  lemma LogoutErrorEffects(db: Db, refreshToken: Option<string>, accessToken: string, secret: string, now: int)
    ensures var s := Logout(db, refreshToken, accessToken, secret, now);
            s.result.Err? ==>
              s.db.users == db.users && s.db.roles == db.roles && s.db.blacklist == db.blacklist &&
              (s.db != db ==>
                 s.result in {Err(TokenExpired), Err(FailedToGetExpirationTime), Err(DataIntegrityViolation)} &&
                 refreshToken.Some? && FindByToken(db.ledger, refreshToken.value).Some? &&
                 var i := FindByToken(db.ledger, refreshToken.value).value;
                 !db.ledger[i].isRevoked && s.db.ledger[i].isRevoked &&
                 s.db.ledger == db.ledger[i := s.db.ledger[i]])
  {
    if PassesChecks(db, refreshToken, secret, now) {
      var i := RowOf(db, refreshToken, secret, now);
      LogoutReachesEndSession(db, refreshToken, accessToken, secret, now);
      EndSessionEffects(db, i, db.users[ValidateToken(secret, refreshToken, now).value].email, accessToken, secret, now);
    }
  }

  /**
   * Under the invariant `logout` never reports a token of another user or an
   * expired row: a validating token's row carries the token's own subject and
   * `exp`.
   */
  lemma LogoutOwnerAndExpiryChecksUnreachable(db: Db, refreshToken: Option<string>, accessToken: string,
                                              secret: string, now: int)
    requires Inv(db)
    ensures var s := Logout(db, refreshToken, accessToken, secret, now);
            s.result != Err(TokenNotBelongToUser) && s.result != Err(TokenExpired)
  {
    var email := ValidateToken(secret, refreshToken, now);
    if email.Some? && email.value in db.users {
      var found := FindByToken(db.ledger, refreshToken.value);
      if found.Some? {
        assert RecordMatchesToken(db.ledger[found.value]);
      }
    }
  }

  /**
   * Under the invariant `logout` succeeds exactly when the refresh token
   * validates, its user exists, its row is still active, the access token
   * verifies and is not blacklisted yet.
   */
  lemma LogoutSucceedsExactlyWhen(db: Db, refreshToken: Option<string>, accessToken: string, secret: string, now: int)
    requires Inv(db)
    ensures Logout(db, refreshToken, accessToken, secret, now).result.Ok? <==>
            ValidateToken(secret, refreshToken, now).Some? &&
            ValidateToken(secret, refreshToken, now).value in db.users &&
            FindByToken(db.ledger, refreshToken.value).Some? &&
            !db.ledger[FindByToken(db.ledger, refreshToken.value).value].isRevoked &&
            Verify(secret, accessToken, now).Some? &&
            !ExistsByToken(db.blacklist, accessToken)
  {
    var email := ValidateToken(secret, refreshToken, now);
    if email.Some? && email.value in db.users {
      var found := FindByToken(db.ledger, refreshToken.value);
      if found.Some? {
        assert RecordMatchesToken(db.ledger[found.value]);
      }
    }
  }

  /**
   * A successful `logout`: the presented row is revoked and used now, the
   * access token is blacklisted until its own `exp`, and the sweep leaves the
   * user at most five active rows, none of them expired, while every other
   * user's rows and all users are untouched.
   */
  lemma LogoutSuccess(db: Db, refreshToken: Option<string>, accessToken: string, secret: string, now: int)
    requires Inv(db)
    requires Logout(db, refreshToken, accessToken, secret, now).result.Ok?
    ensures var s := Logout(db, refreshToken, accessToken, secret, now);
            var email := ValidateToken(secret, refreshToken, now).value;
            var i := FindByToken(db.ledger, refreshToken.value).value;
            email in db.users && Active(db.ledger[i], email) &&
            s.db.users == db.users && s.db.roles == db.roles &&
            |s.db.ledger| == |db.ledger| &&
            s.db.ledger[i] == db.ledger[i].(isRevoked := true, lastUsedAt := Some(now)) &&
            !ExistsByToken(db.blacklist, accessToken) &&
            s.db.blacklist == db.blacklist[accessToken :=
              BlacklistEntry(Verify(secret, accessToken, now).value.expiresAt, now, email)] &&
            CountByUserAndIsRevokedFalse(s.db.ledger, email) <= MaxRefreshTokens &&
            (forall j :: 0 <= j < |s.db.ledger| && Active(s.db.ledger[j], email) ==> s.db.ledger[j].expiresAt >= now) &&
            (forall j :: 0 <= j < |db.ledger| && db.ledger[j].owner != email ==> s.db.ledger[j] == db.ledger[j])
  {
    var email := ValidateToken(secret, refreshToken, now).value;
    var i := FindByToken(db.ledger, refreshToken.value).value;
    LogoutOkPassesChecks(db, refreshToken, accessToken, secret, now);
    assert RecordMatchesToken(db.ledger[i]);
    LogoutReachesEndSession(db, refreshToken, accessToken, secret, now);
    EndSessionSuccess(db, i, email, accessToken, secret, now);
  }

  /** Only a refresh token that passes every check can end a session. */
  lemma LogoutOkPassesChecks(db: Db, refreshToken: Option<string>, accessToken: string, secret: string, now: int)
    ensures Logout(db, refreshToken, accessToken, secret, now).result.Ok? ==> PassesChecks(db, refreshToken, secret, now)
  {
  }

  /** What a successful `EndSession` leaves: see `LogoutSuccess`. */
  lemma EndSessionSuccess(db: Db, i: nat, owner: string, accessToken: string, secret: string, now: int)
    requires i < |db.ledger| && db.ledger[i].owner == owner
    requires EndSession(db, i, owner, accessToken, secret, now).result.Ok?
    ensures var s := EndSession(db, i, owner, accessToken, secret, now);
            s.db.users == db.users && s.db.roles == db.roles &&
            |s.db.ledger| == |db.ledger| &&
            s.db.ledger[i] == db.ledger[i].(isRevoked := true, lastUsedAt := Some(now)) &&
            !ExistsByToken(db.blacklist, accessToken) &&
            s.db.blacklist == db.blacklist[accessToken :=
              BlacklistEntry(Verify(secret, accessToken, now).value.expiresAt, now, owner)] &&
            CountByUserAndIsRevokedFalse(s.db.ledger, owner) <= MaxRefreshTokens &&
            (forall j :: 0 <= j < |s.db.ledger| && Active(s.db.ledger[j], owner) ==> s.db.ledger[j].expiresAt >= now) &&
            (forall j :: 0 <= j < |db.ledger| && db.ledger[j].owner != owner ==> s.db.ledger[j] == db.ledger[j])
  {
    EndSessionEffects(db, i, owner, accessToken, secret, now);
    var bl := db.blacklist[accessToken := BlacklistEntry(Verify(secret, accessToken, now).value.expiresAt, now, owner)];
    var used := Consume(db.ledger, i, now);
    var swept := SweepUser(used, owner, now).ledger;
    assert EndSession(db, i, owner, accessToken, secret, now).db == db.(ledger := swept, blacklist := bl);
    SweepGuarantees(used, owner, now);
    forall j | 0 <= j < |db.ledger| && db.ledger[j].owner != owner
      ensures swept[j] == db.ledger[j]
    {
      assert j != i && used[j] == db.ledger[j];
    }
  }

  /**
   * After a successful `logout` the same refresh token can no longer be
   * rotated: `refreshToken` refuses it and saves nothing.
   */
  lemma LogoutEndsRefresh(db: Db, refreshToken: Option<string>, accessToken: string, secret: string, now: int,
                          accessToken2: Option<string>, jti: string, later: int)
    requires Inv(db)
    requires Logout(db, refreshToken, accessToken, secret, now).result.Ok?
    ensures var s := Logout(db, refreshToken, accessToken, secret, now);
            var s2 := Refresh(s.db, refreshToken, accessToken2, secret, jti, later);
            s2.db == s.db && (s2.result == Err(InvalidToken) || s2.result == Err(TokenWasRevoked))
  {
    var s := Logout(db, refreshToken, accessToken, secret, now);
    var i := FindByToken(db.ledger, refreshToken.value).value;
    LogoutSuccess(db, refreshToken, accessToken, secret, now);
    LogoutInv(db, refreshToken, accessToken, secret, now);
    RevokedRowRejected(s.db, i, accessToken2, secret, jti, later);
  }
}
