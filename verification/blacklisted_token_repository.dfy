/**
 * BlacklistedTokenRepository: the table of revoked access tokens, keyed by the
 * token string (its `token` column is unique).
 */
module BlacklistedTokenRepository {
  import opened Wrappers
  import opened Errors
  import opened Entities

  type Blacklist = map<string, BlacklistEntry>

  /** `existsByToken`: some row holds exactly this token string. */
  predicate ExistsByToken(blacklist: Blacklist, token: string) {
    token in blacklist
  }

  /**
   * `save` of a new row: the unique `token` column refuses a second row for
   * the same string with a data-integrity violation; otherwise the row is added
   * and every other row stays as it was.
   */
  function Insert(blacklist: Blacklist, token: string, entry: BlacklistEntry): (r: Result<Blacklist, ErrorCode>)
    ensures r.Err? <==> ExistsByToken(blacklist, token)
    ensures r.Err? ==> r.error == DataIntegrityViolation
    ensures r.Ok? ==> ExistsByToken(r.value, token) && r.value[token] == entry
    ensures r.Ok? ==> forall t :: t != token ==> (t in r.value <==> t in blacklist)
    ensures r.Ok? ==> forall t :: t in blacklist ==> r.value[t] == blacklist[t]
  {
    if token in blacklist then Err(DataIntegrityViolation) else Ok(blacklist[token := entry])
  }

  /**
   * `deleteExpiredTokens(now)`: removes every row whose expiry lies strictly
   * before `now` and leaves every other row untouched.
   */
  function DeleteExpiredTokens(blacklist: Blacklist, now: int): (r: Blacklist)
    ensures forall t :: t in r <==> t in blacklist && blacklist[t].expiresAt >= now
    ensures forall t :: t in r ==> r[t] == blacklist[t]
  {
    map t | t in blacklist && !(blacklist[t].expiresAt < now) :: blacklist[t]
  }

  /** Deleting twice at the same instant deletes nothing more. */
  lemma DeleteExpiredTokensIdempotent(blacklist: Blacklist, now: int)
    ensures DeleteExpiredTokens(DeleteExpiredTokens(blacklist, now), now) == DeleteExpiredTokens(blacklist, now)
  {
    var once := DeleteExpiredTokens(blacklist, now);
    assert DeleteExpiredTokens(once, now).Keys == once.Keys;
  }

  /** A row is kept by a later sweep only if an earlier sweep kept it too. */
  lemma DeleteExpiredTokensMonotone(blacklist: Blacklist, t1: int, t2: int)
    requires t1 <= t2
    ensures DeleteExpiredTokens(DeleteExpiredTokens(blacklist, t1), t2) == DeleteExpiredTokens(blacklist, t2)
  {
    var once := DeleteExpiredTokens(blacklist, t1);
    assert DeleteExpiredTokens(once, t2).Keys == DeleteExpiredTokens(blacklist, t2).Keys;
  }
}
