/**
 * `TokenCleanupService`: the background sweep of one user's refresh tokens and
 * the purge of expired blacklist rows, run against the shared `Store`.
 *
 * The user sweep revokes inside `peek` and ends each pass with `count()`.  A
 * JDK whose `count()` takes the size of a sized source without running the
 * pipeline skips every `peek`; `CountOnlySweep` models that reading, and the
 * class method models the sweep the code evidently intends, the one
 * `AuthService.cleanupOldTokens` performs with `forEach`.
 */
module TokenCleanup {
  import opened Wrappers
  import opened Entities
  import opened RefreshTokenRepository
  import BlacklistedTokenRepository
  import opened Sweep
  import opened Persistence

  class TokenCleanupService {
    const store: Store

    constructor(store: Store)
      ensures this.store == store
    {
      this.store := store;
    }

    /**
     * `cleanupUserTokensAsync`: the expiry pass, then the excess pass over the
     * survivors, each revoking and saving the rows it loaded; the two counts
     * are the ones the service logs.
     */
    method CleanupUserTokensAsync(owner: string, now: int) returns (expiredTokens: nat, excessTokens: nat)
      modifies store
      ensures var s := SweepUser(old(store.ledger), owner, now);
              store.State() == old(store.State()).(ledger := s.ledger) &&
              expiredTokens == s.expired && excessTokens == s.excess
    {
      var expired := FindByUserAndExpiresAtBeforeAndIsRevokedFalse(store.ledger, owner, now);
      store.RevokeEach(expired);
      expiredTokens := |expired|;
      var ordered := FindByUserAndIsRevokedFalseOrderByCreatedAtDesc(store.ledger, owner);
      var excess := Skip(ordered, Keep);
      assert forall k :: 0 <= k < |excess| ==> excess[k] in ordered;
      store.RevokeEach(excess);
      excessTokens := |excess|;
    }

    /** `cleanupExpiredBlacklistedTokensAsync`: exactly `deleteExpiredTokens(now)`. */
    method CleanupExpiredBlacklistedTokensAsync(now: int)
      modifies store
      ensures store.State() ==
              old(store.State()).(blacklist := BlacklistedTokenRepository.DeleteExpiredTokens(old(store.blacklist), now))
    {
      store.DeleteExpiredTokens(now);
    }
  }

  /**
   * The user sweep as written, on a JDK that answers `count()` from the size
   * of the loaded list: both passes report the size of what they loaded and
   * revoke nothing.
   */
  function CountOnlySweep(ledger: seq<RefreshRecord>, owner: string, now: int): SweepResult {
    SweepResult(ledger,
                |FindByUserAndExpiresAtBeforeAndIsRevokedFalse(ledger, owner, now)|,
                |ExcessOf(ledger, owner)|)
  }

  /**
   * Read that way, the sweep reports expired rows as cleaned while every one
   * of them stays active: whenever it counts one, an active expired row of
   * the user is left behind, which the intended sweep never leaves.
   */
  lemma CountOnlySweepLeavesExpired(ledger: seq<RefreshRecord>, owner: string, now: int)
    ensures var w := CountOnlySweep(ledger, owner, now);
            w.ledger == ledger &&
            w.expired == SweepUser(ledger, owner, now).expired &&
            (w.expired > 0 <==>
               exists i :: 0 <= i < |w.ledger| && Active(w.ledger[i], owner) && w.ledger[i].expiresAt < now)
  {
    var expired := FindByUserAndExpiresAtBeforeAndIsRevokedFalse(ledger, owner, now);
    if |expired| > 0 {
      assert expired[0] in expired;
    } else {
      forall i | 0 <= i < |ledger| && Active(ledger[i], owner)
        ensures ledger[i].expiresAt >= now
      {
        assert i !in expired;
      }
    }
  }

  /** One user, one active refresh token that expired at 10, swept at 20. */
  lemma CountOnlySweepCounterexample()
    ensures var ledger := [RefreshRecord("t", "ana@iam.dev", 0, 10, false, None)];
            var w := CountOnlySweep(ledger, "ana@iam.dev", 20);
            var s := SweepUser(ledger, "ana@iam.dev", 20);
            w.expired == 1 && Active(w.ledger[0], "ana@iam.dev") &&
            s.expired == 1 && !Active(s.ledger[0], "ana@iam.dev")
  {
    var ledger := [RefreshRecord("t", "ana@iam.dev", 0, 10, false, None)];
    CountOnlySweepLeavesExpired(ledger, "ana@iam.dev", 20);
    SweepLeavesNoExpired(ledger, "ana@iam.dev", 20);
    var expired := FindByUserAndExpiresAtBeforeAndIsRevokedFalse(ledger, "ana@iam.dev", 20);
    assert 0 in expired;
  }
}
