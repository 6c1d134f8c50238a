/**
 * Refresh-token rotation: what `refreshToken` refuses, what it consumes and
 * blacklists, the ceiling of five active rows, and why a consumed token cannot
 * be replayed.
 */
module Rotation {
  import opened Wrappers
  import opened Errors
  import opened Entities
  import opened JwtUtil
  import opened RefreshTokenRepository
  import opened BlacklistedTokenRepository
  import opened Persistence
  import opened AuthSpec
  import opened Invariants

  /** The database and response of a refresh that passed its checks and its blacklisting step. */
  lemma RefreshOkShape(db: Db, refreshToken: Option<string>, accessToken: Option<string>,
                       secret: string, jti: string, now: int)
    requires RefreshGuard(db, refreshToken, accessToken, secret, now).Ok?
    requires var c := RefreshGuard(db, refreshToken, accessToken, secret, now).value;
             BlacklistOldAccess(db.blacklist, secret, c.accessToken, c.user.email, now).Ok?
    ensures var c := RefreshGuard(db, refreshToken, accessToken, secret, now).value;
            var blacklist := BlacklistOldAccess(db.blacklist, secret, c.accessToken, c.user.email, now).value;
            var refresh := GenerateRefreshToken(secret, c.user, jti, now);
            Refresh(db, refreshToken, accessToken, secret, jti, now) ==
            Step(db.(ledger := TrimOldest(Consume(db.ledger, c.index, now), c.user.email) +
                               [NewRecord(refresh, c.user.email, now, now + RefreshTokenTtl)],
                     blacklist := blacklist),
                 Ok(LoginResponse(c.user.id, GenerateAccessToken(secret, c.user, now), refresh)))
  {
    var c := RefreshGuard(db, refreshToken, accessToken, secret, now).value;
    RotateIssues(db, c, BlacklistOldAccess(db.blacklist, secret, c.accessToken, c.user.email, now).value,
                 secret, jti, now);
  }

  /**
   * Under the invariant the row `refreshToken` consumes belongs to the token's
   * subject, and the user it works with is the one stored under that email.
   */
  lemma RefreshGuardOwner(db: Db, refreshToken: Option<string>, accessToken: Option<string>, secret: string, now: int)
    requires Inv(db) && RefreshGuard(db, refreshToken, accessToken, secret, now).Ok?
    ensures var c := RefreshGuard(db, refreshToken, accessToken, secret, now).value;
            c.user.email in db.users && db.users[c.user.email] == c.user &&
            db.ledger[c.index].owner == c.user.email &&
            Active(db.ledger[c.index], c.user.email) &&
            ValidateToken(secret, refreshToken, now) == Some(c.user.email)
  {
    var c := RefreshGuard(db, refreshToken, accessToken, secret, now).value;
    assert RecordMatchesToken(db.ledger[c.index]);
  }

  /**
   * The checks of `refreshToken` in their order, each raising with nothing
   * saved: an invalid refresh token, a missing or empty access token, no
   * unrevoked row, an unknown user, and a disabled or locked user (both as
   * ACCOUNT_LOCKED).
   */
  lemma RefreshChecks(db: Db, refreshToken: Option<string>, accessToken: Option<string>,
                      secret: string, jti: string, now: int)
    ensures var s := Refresh(db, refreshToken, accessToken, secret, jti, now);
            var email := ValidateToken(secret, refreshToken, now);
            (email.None? ==> s == Step(db, Err(InvalidToken))) &&
            (email.Some? && (accessToken.None? || accessToken.value == []) ==> s == Step(db, Err(InvalidToken))) &&
            ((email.Some? && accessToken.Some? && accessToken.value != [] &&
              FindByTokenAndIsRevokedFalse(db.ledger, refreshToken.value).None?) ==>
               s == Step(db, Err(TokenWasRevoked))) &&
            (RefreshGuard(db, refreshToken, accessToken, secret, now).Ok? ==>
               var u := db.users[email.value];
               email.value in db.users && u.isEnabled && !u.LockedAt(now)) &&
            (email.Some? && accessToken.Some? && accessToken.value != [] &&
             FindByTokenAndIsRevokedFalse(db.ledger, refreshToken.value).Some? &&
             !(db.ledger[FindByTokenAndIsRevokedFalse(db.ledger, refreshToken.value).value].expiresAt < now) ==>
               (email.value !in db.users ==> s == Step(db, Err(UserNotFound))) &&
               (email.value in db.users && (!db.users[email.value].isEnabled || db.users[email.value].LockedAt(now)) ==>
                  s == Step(db, Err(AccountLocked))))
  {
  }

  /** Every error of `refreshToken` leaves all stores unchanged: nothing is saved before the last check. */
  lemma RefreshErrorsSaveNothing(db: Db, refreshToken: Option<string>, accessToken: Option<string>,
                                 secret: string, jti: string, now: int)
    ensures var s := Refresh(db, refreshToken, accessToken, secret, jti, now);
            s.result.Err? ==> s.db == db
  {
    var g := RefreshGuard(db, refreshToken, accessToken, secret, now);
    if g.Ok? {
      var b := BlacklistOldAccess(db.blacklist, secret, g.value.accessToken, g.value.user.email, now);
      if b.Ok? {
        RotateIssues(db, g.value, b.value, secret, jti, now);
      }
    }
  }

  /**
   * Under the invariant the expired-row branch is never taken: a refresh token
   * that validates has not passed its `exp`, and its row carries that `exp`.
   */
  lemma RefreshNeverReportsExpiredRow(db: Db, refreshToken: Option<string>, accessToken: Option<string>,
                                      secret: string, jti: string, now: int)
    requires Inv(db)
    ensures Refresh(db, refreshToken, accessToken, secret, jti, now).result != Err(TokenExpired)
  {
    RefreshErrorsSaveNothing(db, refreshToken, accessToken, secret, jti, now);
    if ValidateToken(secret, refreshToken, now).Some? && accessToken.Some? && accessToken.value != [] {
      var found := FindByTokenAndIsRevokedFalse(db.ledger, refreshToken.value);
      if found.Some? {
        assert RecordMatchesToken(db.ledger[found.value]);
      }
    }
  }

  /**
   * An old access token that is not yet blacklisted and fails verification
   * (expired, say) aborts the refresh before the refresh row is consumed.
   */
  lemma RefreshAbortsOnUnverifiableAccess(db: Db, refreshToken: Option<string>, accessToken: Option<string>,
                                          secret: string, jti: string, now: int)
    requires RefreshGuard(db, refreshToken, accessToken, secret, now).Ok?
    requires !ExistsByToken(db.blacklist, accessToken.value)
    requires Verify(secret, accessToken.value, now).None?
    ensures Refresh(db, refreshToken, accessToken, secret, jti, now) == Step(db, Err(FailedToGetExpirationTime))
  {
    var c := RefreshGuard(db, refreshToken, accessToken, secret, now).value;
    assert BlacklistOldAccess(db.blacklist, secret, c.accessToken, c.user.email, now) == Err(FailedToGetExpirationTime);
  }

  /**
   * A successful refresh consumes the presented row (revoked, used now),
   * blacklists the old access token only when no row holds it yet, and
   * appends one active row for the new refresh token, expiring in 7 days.
   * Every other row is untouched except, possibly, one active row of the same
   * user revoked by the ceiling.
   */
  lemma RefreshSuccess(db: Db, refreshToken: Option<string>, accessToken: Option<string>,
                       secret: string, jti: string, now: int)
    requires Inv(db)
    requires RefreshGuard(db, refreshToken, accessToken, secret, now).Ok?
    requires var c := RefreshGuard(db, refreshToken, accessToken, secret, now).value;
             ExistsByToken(db.blacklist, c.accessToken) || Verify(secret, c.accessToken, now).Some?
    ensures var c := RefreshGuard(db, refreshToken, accessToken, secret, now).value;
            var i := c.index;
            var email := c.user.email;
            var s := Refresh(db, refreshToken, accessToken, secret, jti, now);
            s.result.Ok? && s.result.value.userId == c.user.id &&
            s.db.users == db.users && s.db.roles == db.roles &&
            |s.db.ledger| == |db.ledger| + 1 &&
            s.db.ledger[i] == db.ledger[i].(isRevoked := true, lastUsedAt := Some(now)) &&
            s.db.ledger[|db.ledger|] == NewRecord(s.result.value.refreshToken, email, now, now + RefreshTokenTtl) &&
            (forall j :: 0 <= j < |db.ledger| && j != i ==>
               s.db.ledger[j] == db.ledger[j] ||
               (Active(db.ledger[j], email) && s.db.ledger[j] == db.ledger[j].(isRevoked := true))) &&
            ExistsByToken(s.db.blacklist, c.accessToken) &&
            (ExistsByToken(db.blacklist, c.accessToken) ==> s.db.blacklist == db.blacklist) &&
            (!ExistsByToken(db.blacklist, c.accessToken) ==>
               s.db.blacklist == db.blacklist[c.accessToken :=
                 BlacklistEntry(Verify(secret, c.accessToken, now).value.expiresAt, now, email)])
  {
    var c := RefreshGuard(db, refreshToken, accessToken, secret, now).value;
    var i := c.index;
    var email := c.user.email;
    RefreshGuardOwner(db, refreshToken, accessToken, secret, now);
    BlacklistOldAccessEffect(db.blacklist, secret, c.accessToken, email, now);
    RefreshOkShape(db, refreshToken, accessToken, secret, jti, now);
    var consumed := Consume(db.ledger, i, now);
    var trimmed := TrimOldest(consumed, email);
    TrimOldestRevokesOnlyActive(consumed, email);
    var after := trimmed + [NewRecord(GenerateRefreshToken(secret, c.user, jti, now), email, now, now + RefreshTokenTtl)];
    assert after[i] == consumed[i];
    forall j | 0 <= j < |db.ledger| && j != i
      ensures after[j] == db.ledger[j] || (Active(db.ledger[j], email) && after[j] == db.ledger[j].(isRevoked := true))
    {
      assert after[j] == trimmed[j] && consumed[j] == db.ledger[j];
    }
  }

  /** The blacklisting step: nothing when a row already holds the token, else a row with the token's own expiry. */
  lemma BlacklistOldAccessEffect(blacklist: Blacklist, secret: string, accessToken: string, owner: string, now: int)
    ensures var r := BlacklistOldAccess(blacklist, secret, accessToken, owner, now);
            (ExistsByToken(blacklist, accessToken) ==> r == Ok(blacklist)) &&
            (!ExistsByToken(blacklist, accessToken) && Verify(secret, accessToken, now).Some? ==>
               r == Ok(blacklist[accessToken := BlacklistEntry(Verify(secret, accessToken, now).value.expiresAt, now, owner)])) &&
            (!ExistsByToken(blacklist, accessToken) && Verify(secret, accessToken, now).None? ==>
               r == Err(FailedToGetExpirationTime))
  {
  }

  /** The ceiling step changes at most one row, an active row of `owner`, and only revokes it. */
  lemma TrimOldestRevokesOnlyActive(ledger: seq<RefreshRecord>, owner: string)
    ensures var r := TrimOldest(ledger, owner);
            forall j :: 0 <= j < |ledger| ==>
              r[j] == ledger[j] || (Active(ledger[j], owner) && r[j] == ledger[j].(isRevoked := true))
  {
  }

  /** With `k` rows active at a count of zero or more, a count of zero means no oldest row. */
  lemma OldestExistsWhenCounted(ledger: seq<RefreshRecord>, owner: string)
    ensures FindTopByUserAndIsRevokedFalseOrderByCreatedAtAsc(ledger, owner).None? ==>
            CountByUserAndIsRevokedFalse(ledger, owner) == 0
  {
    if FindTopByUserAndIsRevokedFalseOrderByCreatedAtAsc(ledger, owner).None? {
      assert ActiveSet(ledger, owner) == {};
    }
  }

  /** How the ceiling step changes the count: one fewer exactly when five or more were active. */
  lemma TrimOldestCount(ledger: seq<RefreshRecord>, owner: string)
    ensures var n := CountByUserAndIsRevokedFalse(ledger, owner);
            CountByUserAndIsRevokedFalse(TrimOldest(ledger, owner), owner) ==
            if n >= MaxRefreshTokens then n - 1 else n
  {
    OldestExistsWhenCounted(ledger, owner);
    var top := FindTopByUserAndIsRevokedFalseOrderByCreatedAtAsc(ledger, owner);
    if top.Some? {
      CountUpdate(ledger, top.value, ledger[top.value].(isRevoked := true), owner);
    }
  }

  /**
   * Rotation never increases a user's active count: it stays the same below
   * the ceiling and drops by one from six active rows on, so a count of at
   * most five stays at most five.
   */
  lemma RefreshCeiling(db: Db, refreshToken: Option<string>, accessToken: Option<string>,
                       secret: string, jti: string, now: int)
    requires Inv(db)
    requires Refresh(db, refreshToken, accessToken, secret, jti, now).result.Ok?
    ensures var c := RefreshGuard(db, refreshToken, accessToken, secret, now).value;
            var before := CountByUserAndIsRevokedFalse(db.ledger, c.user.email);
            var after := CountByUserAndIsRevokedFalse(Refresh(db, refreshToken, accessToken, secret, jti, now).db.ledger,
                                                      c.user.email);
            after == (if before - 1 >= MaxRefreshTokens then before - 1 else before) &&
            after <= before &&
            (before <= MaxRefreshTokens ==> after <= MaxRefreshTokens)
  {
    var c := RefreshGuard(db, refreshToken, accessToken, secret, now).value;
    var email := c.user.email;
    RefreshGuardOwner(db, refreshToken, accessToken, secret, now);
    RefreshOkShape(db, refreshToken, accessToken, secret, jti, now);
    var consumed := Consume(db.ledger, c.index, now);
    CountUpdate(db.ledger, c.index, consumed[c.index], email);
    TrimOldestCount(consumed, email);
    var refresh := GenerateRefreshToken(secret, c.user, jti, now);
    CountAppend(TrimOldest(consumed, email), NewRecord(refresh, email, now, now + RefreshTokenTtl), email);
  }

  /**
   * The row the ceiling revokes is the oldest: it was active and no other
   * active row of the user, the consumed one aside, was created before it.
   */
  lemma RefreshTrimsOldest(db: Db, refreshToken: Option<string>, accessToken: Option<string>,
                           secret: string, jti: string, now: int, j: nat)
    requires Inv(db)
    requires Refresh(db, refreshToken, accessToken, secret, jti, now).result.Ok?
    requires var c := RefreshGuard(db, refreshToken, accessToken, secret, now).value;
             j < |db.ledger| && j != c.index && Active(db.ledger[j], c.user.email) &&
             !Active(Refresh(db, refreshToken, accessToken, secret, jti, now).db.ledger[j], c.user.email)
    ensures var c := RefreshGuard(db, refreshToken, accessToken, secret, now).value;
            CountByUserAndIsRevokedFalse(db.ledger, c.user.email) - 1 >= MaxRefreshTokens &&
            forall k :: 0 <= k < |db.ledger| && k != c.index && Active(db.ledger[k], c.user.email) ==>
              db.ledger[j].createdAt <= db.ledger[k].createdAt
  {
    var c := RefreshGuard(db, refreshToken, accessToken, secret, now).value;
    var email := c.user.email;
    RefreshGuardOwner(db, refreshToken, accessToken, secret, now);
    RefreshOkShape(db, refreshToken, accessToken, secret, jti, now);
    var consumed := Consume(db.ledger, c.index, now);
    CountUpdate(db.ledger, c.index, consumed[c.index], email);
    var trimmed := TrimOldest(consumed, email);
    assert consumed[j] == db.ledger[j];
    assert trimmed[j] != consumed[j];
    TrimOldestPicksOldest(consumed, email, j);
    forall k | 0 <= k < |db.ledger| && k != c.index && Active(db.ledger[k], email)
      ensures db.ledger[j].createdAt <= db.ledger[k].createdAt
    {
      assert consumed[k] == db.ledger[k];
    }
  }

  /** A row the ceiling step changes is the oldest active row, and five or more were active. */
  lemma TrimOldestPicksOldest(ledger: seq<RefreshRecord>, owner: string, j: nat)
    requires j < |ledger| && TrimOldest(ledger, owner)[j] != ledger[j]
    ensures CountByUserAndIsRevokedFalse(ledger, owner) >= MaxRefreshTokens
    ensures forall k :: 0 <= k < |ledger| && Active(ledger[k], owner) ==> ledger[j].createdAt <= ledger[k].createdAt
  {
  }

  /**
   * A consumed refresh token cannot be replayed: presenting it again, at any
   * later instant and with any access token, fails with INVALID_TOKEN or
   * TOKEN_WAS_REVOKED and saves nothing.
   */
  lemma RefreshReplayRejected(db: Db, refreshToken: string, accessToken: Option<string>, secret: string,
                              jti: string, now: int,
                              accessToken2: Option<string>, jti2: string, later: int)
    requires Inv(db) && FreshJti(db.ledger, jti)
    requires Refresh(db, Some(refreshToken), accessToken, secret, jti, now).result.Ok?
    ensures var s := Refresh(db, Some(refreshToken), accessToken, secret, jti, now);
            var s2 := Refresh(s.db, Some(refreshToken), accessToken2, secret, jti2, later);
            s2.db == s.db && (s2.result == Err(InvalidToken) || s2.result == Err(TokenWasRevoked))
  {
    var s := Refresh(db, Some(refreshToken), accessToken, secret, jti, now);
    var c := RefreshGuard(db, Some(refreshToken), accessToken, secret, now).value;
    RefreshInv(db, Some(refreshToken), accessToken, secret, jti, now);
    RefreshOkShape(db, Some(refreshToken), accessToken, secret, jti, now);
    var consumed := Consume(db.ledger, c.index, now);
    TrimOldestRevokesOnlyActive(consumed, c.user.email);
    assert s.db.ledger[c.index] == consumed[c.index];
    RevokedRowRejected(s.db, c.index, accessToken2, secret, jti2, later);
  }

  /** Presenting the token of a revoked row fails with INVALID_TOKEN or TOKEN_WAS_REVOKED and saves nothing. */
  lemma RevokedRowRejected(db: Db, i: nat, accessToken: Option<string>, secret: string, jti: string, now: int)
    requires TokensDistinct(db.ledger) && i < |db.ledger| && db.ledger[i].isRevoked
    ensures var s := Refresh(db, Some(db.ledger[i].token), accessToken, secret, jti, now);
            s.db == db && (s.result == Err(InvalidToken) || s.result == Err(TokenWasRevoked))
  {
    FindRow(db.ledger, i);
    RefreshErrorsSaveNothing(db, Some(db.ledger[i].token), accessToken, secret, jti, now);
  }
}
