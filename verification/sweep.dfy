/**
 * The two-pass sweep of one user's refresh tokens, as `AuthService.cleanupOldTokens`
 * and `TokenCleanupService.cleanupUserTokensAsync` run it: first every active
 * record already expired is revoked, then every active record beyond the five
 * newest.
 */
module Sweep {
  import opened Entities
  import opened RefreshTokenRepository

  /** How many active records the second pass keeps (`skip(5)`). */
  const Keep: nat := 5

  /** The ledger after each record at one of `idxs` was loaded, marked revoked and saved. */
  function RevokeAll(ledger: seq<RefreshRecord>, idxs: seq<nat>): (r: seq<RefreshRecord>)
    ensures |r| == |ledger|
  {
    seq(|ledger|, i requires 0 <= i < |ledger| =>
      if i in idxs then ledger[i].(isRevoked := true) else ledger[i])
  }

  /** `stream().skip(n)`. */
  function Skip(s: seq<nat>, n: nat): (r: seq<nat>)
    ensures |r| == if |s| <= n then 0 else |s| - n
  {
    if |s| <= n then [] else s[n..]
  }

  datatype SweepResult = SweepResult(ledger: seq<RefreshRecord>, expired: nat, excess: nat)

  /** The ledger after the first pass: every active record of `owner` with `expiresAt < now` revoked. */
  function ExpiryPass(ledger: seq<RefreshRecord>, owner: string, now: int): seq<RefreshRecord> {
    RevokeAll(ledger, FindByUserAndExpiresAtBeforeAndIsRevokedFalse(ledger, owner, now))
  }

  /** The records the second pass revokes: the active ones after the five newest. */
  function ExcessOf(ledger: seq<RefreshRecord>, owner: string): seq<nat> {
    Skip(FindByUserAndIsRevokedFalseOrderByCreatedAtDesc(ledger, owner), Keep)
  }

  /** Both passes, with the number of records each pass revoked. */
  function SweepUser(ledger: seq<RefreshRecord>, owner: string, now: int): SweepResult {
    var expired := FindByUserAndExpiresAtBeforeAndIsRevokedFalse(ledger, owner, now);
    var l1 := RevokeAll(ledger, expired);
    var excess := ExcessOf(l1, owner);
    SweepResult(RevokeAll(l1, excess), |expired|, |excess|)
  }

  /** Revoking rows only flips `isRevoked` to true, and only on the named rows. */
  predicate OnlyRevokes(before: seq<RefreshRecord>, after: seq<RefreshRecord>, owner: string) {
    |after| == |before| &&
    forall i :: 0 <= i < |before| ==>
      after[i] == before[i] ||
      (Active(before[i], owner) && after[i] == before[i].(isRevoked := true))
  }

  lemma RevokeAllOnlyRevokes(ledger: seq<RefreshRecord>, idxs: seq<nat>, owner: string)
    requires forall k :: 0 <= k < |idxs| ==> idxs[k] < |ledger| && Active(ledger[idxs[k]], owner)
    ensures OnlyRevokes(ledger, RevokeAll(ledger, idxs), owner)
    ensures forall i :: 0 <= i < |ledger| ==> (Active(RevokeAll(ledger, idxs)[i], owner) <==>
                                                Active(ledger[i], owner) && i !in idxs)
  {
  }

  /** Revoking `k` distinct active rows of `owner` lowers that user's active count by exactly `k`. */
  lemma RevokeAllCount(ledger: seq<RefreshRecord>, idxs: seq<nat>, owner: string)
    requires Distinct(idxs)
    requires forall k :: 0 <= k < |idxs| ==> idxs[k] < |ledger| && Active(ledger[idxs[k]], owner)
    ensures CountByUserAndIsRevokedFalse(RevokeAll(ledger, idxs), owner) + |idxs| ==
            CountByUserAndIsRevokedFalse(ledger, owner)
  {
    var after := RevokeAll(ledger, idxs);
    RevokeAllOnlyRevokes(ledger, idxs, owner);
    assert ActiveSet(after, owner) == ActiveSet(ledger, owner) - Elems(idxs);
    assert Elems(idxs) <= ActiveSet(ledger, owner);
    CardOfDistinct(idxs);
  }

  /** Composition of two `OnlyRevokes` steps. */
  lemma OnlyRevokesTrans(a: seq<RefreshRecord>, b: seq<RefreshRecord>, c: seq<RefreshRecord>, owner: string)
    requires OnlyRevokes(a, b, owner) && OnlyRevokes(b, c, owner)
    ensures OnlyRevokes(a, c, owner)
  {
  }

  /** The sweep only sets `isRevoked` to true, and only on active records of `owner`. */
  lemma SweepOnlyRevokes(ledger: seq<RefreshRecord>, owner: string, now: int)
    ensures OnlyRevokes(ledger, SweepUser(ledger, owner, now).ledger, owner)
  {
    var expired := FindByUserAndExpiresAtBeforeAndIsRevokedFalse(ledger, owner, now);
    var l1 := RevokeAll(ledger, expired);
    var excess := ExcessOf(l1, owner);
    RevokeAllOnlyRevokes(ledger, expired, owner);
    RevokeAllOnlyRevokes(l1, excess, owner);
    OnlyRevokesTrans(ledger, l1, RevokeAll(l1, excess), owner);
  }

  /** After the sweep no active record of `owner` has expired. */
  lemma SweepLeavesNoExpired(ledger: seq<RefreshRecord>, owner: string, now: int)
    ensures forall i :: 0 <= i < |ledger| && Active(SweepUser(ledger, owner, now).ledger[i], owner) ==>
                          SweepUser(ledger, owner, now).ledger[i].expiresAt >= now
  {
    var expired := FindByUserAndExpiresAtBeforeAndIsRevokedFalse(ledger, owner, now);
    var l1 := RevokeAll(ledger, expired);
    var excess := ExcessOf(l1, owner);
    RevokeAllOnlyRevokes(ledger, expired, owner);
    RevokeAllOnlyRevokes(l1, excess, owner);
  }

  /** After the sweep `owner` holds at most five active records. */
  lemma SweepKeepsAtMostFive(ledger: seq<RefreshRecord>, owner: string, now: int)
    ensures CountByUserAndIsRevokedFalse(SweepUser(ledger, owner, now).ledger, owner) <= Keep
  {
    var expired := FindByUserAndExpiresAtBeforeAndIsRevokedFalse(ledger, owner, now);
    var l1 := RevokeAll(ledger, expired);
    var ordered := FindByUserAndIsRevokedFalseOrderByCreatedAtDesc(l1, owner);
    var excess := Skip(ordered, Keep);
    var l2 := RevokeAll(l1, excess);
    RevokeAllOnlyRevokes(l1, excess, owner);
    var kept := if |ordered| <= Keep then ordered else ordered[..Keep];
    assert ordered == kept + excess;
    forall x | x in ActiveSet(l2, owner)
      ensures x in Elems(kept)
    {
      assert x in ordered && x !in excess;
    }
    CardAtMostLength(kept);
    SubsetCard(ActiveSet(l2, owner), Elems(kept));
  }

  /**
   * The records the second pass keeps are the newest: each survivor was created
   * no earlier than each record the second pass revoked.
   */
  lemma SweepKeepsNewest(ledger: seq<RefreshRecord>, owner: string, now: int, i: nat, j: nat)
    requires i < |ledger| && j < |ledger|
    requires Active(SweepUser(ledger, owner, now).ledger[i], owner)
    requires Active(ExpiryPass(ledger, owner, now)[j], owner)
    requires !Active(SweepUser(ledger, owner, now).ledger[j], owner)
    ensures ledger[i].createdAt >= ledger[j].createdAt
  {
    var expired := FindByUserAndExpiresAtBeforeAndIsRevokedFalse(ledger, owner, now);
    var l1 := RevokeAll(ledger, expired);
    var ordered := FindByUserAndIsRevokedFalseOrderByCreatedAtDesc(l1, owner);
    var excess := Skip(ordered, Keep);
    RevokeAllOnlyRevokes(ledger, expired, owner);
    RevokeAllOnlyRevokes(l1, excess, owner);
    assert j in excess;
    assert i in ordered && i !in excess;
    var b :| Keep <= b < |ordered| && ordered[b] == j;
    var a :| 0 <= a < |ordered| && ordered[a] == i;
    assert l1[i].createdAt >= l1[j].createdAt;
  }

  /** The counts the sweep reports are the drops in `owner`'s active count caused by each pass. */
  lemma SweepCounts(ledger: seq<RefreshRecord>, owner: string, now: int)
    ensures var r := SweepUser(ledger, owner, now);
            CountByUserAndIsRevokedFalse(ledger, owner) ==
            CountByUserAndIsRevokedFalse(ExpiryPass(ledger, owner, now), owner) + r.expired &&
            CountByUserAndIsRevokedFalse(ExpiryPass(ledger, owner, now), owner) ==
            CountByUserAndIsRevokedFalse(r.ledger, owner) + r.excess
  {
    var expired := FindByUserAndExpiresAtBeforeAndIsRevokedFalse(ledger, owner, now);
    var l1 := RevokeAll(ledger, expired);
    var ordered := FindByUserAndIsRevokedFalseOrderByCreatedAtDesc(l1, owner);
    var excess := Skip(ordered, Keep);
    RevokeAllCount(ledger, expired, owner);
    assert forall k :: 0 <= k < |excess| ==> excess[k] in ordered;
    RevokeAllCount(l1, excess, owner);
  }

  /** A second sweep at the same instant revokes nothing. */
  lemma SweepIdempotent(ledger: seq<RefreshRecord>, owner: string, now: int)
    ensures var r := SweepUser(ledger, owner, now);
            SweepUser(r.ledger, owner, now) == SweepResult(r.ledger, 0, 0)
  {
    var r := SweepUser(ledger, owner, now);
    SweepLeavesNoExpired(ledger, owner, now);
    SweepKeepsAtMostFive(ledger, owner, now);
    var expired := FindByUserAndExpiresAtBeforeAndIsRevokedFalse(r.ledger, owner, now);
    assert Elems(expired) == {};
    CardOfDistinct(expired);
    assert RevokeAll(r.ledger, []) == r.ledger;
  }

  lemma SubsetCard(a: set<nat>, b: set<nat>)
    requires a <= b
    ensures |a| <= |b|
  {
    assert b == a + (b - a);
  }

  /** The sweep leaves every other user's records as they were. */
  lemma SweepOtherOwners(ledger: seq<RefreshRecord>, owner: string, now: int, i: nat)
    requires i < |ledger| && ledger[i].owner != owner
    ensures SweepUser(ledger, owner, now).ledger[i] == ledger[i]
  {
    SweepOnlyRevokes(ledger, owner, now);
  }

  /**
   * What one sweep guarantees at once: revoked rows and other users' rows
   * stay as they were, and `owner` keeps at most five active rows, none expired.
   */
  lemma SweepGuarantees(ledger: seq<RefreshRecord>, owner: string, now: int)
    ensures var r := SweepUser(ledger, owner, now).ledger;
            |r| == |ledger| &&
            (forall j :: 0 <= j < |ledger| && (ledger[j].isRevoked || ledger[j].owner != owner) ==> r[j] == ledger[j]) &&
            CountByUserAndIsRevokedFalse(r, owner) <= Keep &&
            (forall j :: 0 <= j < |r| && Active(r[j], owner) ==> r[j].expiresAt >= now)
  {
    SweepOnlyRevokes(ledger, owner, now);
    SweepKeepsAtMostFive(ledger, owner, now);
    SweepLeavesNoExpired(ledger, owner, now);
  }
}
