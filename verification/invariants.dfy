/**
 * Every operation of `AuthService` and the sweeps keep `AuthSpec.Inv`: users
 * under their own email, distinct token strings in the ledger, and rows that
 * agree with the claims of their own tokens.
 */
module Invariants {
  import opened Wrappers
  import opened Errors
  import opened Entities
  import opened JwtUtil
  import opened RefreshTokenRepository
  import opened BlacklistedTokenRepository
  import opened Sweep
  import opened Persistence
  import opened Requests
  import opened AuthSpec

  /** Two ledgers whose rows agree on token, owner and expiry, row by row. */
  predicate SameTokens(a: seq<RefreshRecord>, b: seq<RefreshRecord>) {
    |a| == |b| &&
    forall i :: 0 <= i < |a| ==>
      a[i].token == b[i].token && a[i].owner == b[i].owner && a[i].expiresAt == b[i].expiresAt
  }

  lemma SameTokensInv(db: Db, ledger: seq<RefreshRecord>)
    requires Inv(db) && SameTokens(db.ledger, ledger)
    ensures Inv(db.(ledger := ledger))
  {
    forall i | 0 <= i < |ledger| ensures RecordMatchesToken(ledger[i]) {
      assert RecordMatchesToken(db.ledger[i]);
    }
  }

  lemma OnlyRevokesSameTokens(a: seq<RefreshRecord>, b: seq<RefreshRecord>, owner: string)
    requires OnlyRevokes(a, b, owner)
    ensures SameTokens(a, b)
  {
  }

  /** A refresh token issued with a fresh `jti` differs from every token in the ledger. */
  lemma FreshTokenDiffers(ledger: seq<RefreshRecord>, secret: string, u: User, jti: string, now: int)
    requires FreshJti(ledger, jti)
    ensures forall i :: 0 <= i < |ledger| ==> ledger[i].token != GenerateRefreshToken(secret, u, jti, now)
  {
    RefreshTokenClaims(secret, u, jti, now);
    forall i | 0 <= i < |ledger| ensures ledger[i].token != GenerateRefreshToken(secret, u, jti, now) {
      assert OtherJti(ledger[i], jti);
    }
  }

  /** Appending the row of a freshly issued refresh token keeps the invariant. */
  lemma AppendFreshInv(db: Db, secret: string, u: User, jti: string, now: int, exp: int)
    requires Inv(db) && FreshJti(db.ledger, jti)
    requires exp == now + RefreshTokenTtl
    ensures Inv(db.(ledger := db.ledger + [NewRecord(GenerateRefreshToken(secret, u, jti, now), u.email, now, exp)]))
  {
    var tok := GenerateRefreshToken(secret, u, jti, now);
    FreshTokenDiffers(db.ledger, secret, u, jti, now);
    RefreshTokenClaims(secret, u, jti, now);
    var ledger := db.ledger + [NewRecord(tok, u.email, now, exp)];
    assert forall i :: 0 <= i < |db.ledger| ==> ledger[i] == db.ledger[i];
  }

  lemma CreateUserInv(db: Db, req: RegisterRequest, id: string, encoder: PasswordEncoder, now: int)
    requires Inv(db)
    ensures Inv(CreateUser(db, req, id, encoder, now).db)
  {
  }

  lemma LoginInv(db: Db, email: string, password: string, encoder: PasswordEncoder,
                 secret: string, jti: string, now: int)
    requires Inv(db) && FreshJti(db.ledger, jti)
    ensures Inv(Login(db, email, password, encoder, secret, jti, now).db)
  {
    match LoginGuard(db, email, now)
    case Err(_) =>
    case Ok(u) =>
      if encoder.matches(password, u.password) {
        var u' := u.(failedLoginAttempts := 0, lastLoginAt := Some(now));
        var db1 := db.(users := db.users[u.email := u']);
        RefreshTokenValidates(secret, u', jti, now, now);
        AppendFreshInv(db1, secret, u', jti, now, now + RefreshTokenTtl);
      }
  }

  /** Consuming one row and trimming the oldest keep every row's token, owner and expiry. */
  lemma ConsumeTrimSameTokens(ledger: seq<RefreshRecord>, i: nat, owner: string, now: int)
    requires i < |ledger|
    ensures SameTokens(ledger, TrimOldest(Consume(ledger, i, now), owner))
  {
  }

  lemma RefreshInv(db: Db, refreshToken: Option<string>, accessToken: Option<string>,
                   secret: string, jti: string, now: int)
    requires Inv(db) && FreshJti(db.ledger, jti)
    ensures Inv(Refresh(db, refreshToken, accessToken, secret, jti, now).db)
  {
    var g := RefreshGuard(db, refreshToken, accessToken, secret, now);
    if g.Ok? {
      var c := g.value;
      var b := BlacklistOldAccess(db.blacklist, secret, c.accessToken, c.user.email, now);
      if b.Ok? {
        RotateIssues(db, c, b.value, secret, jti, now);
        var trimmed := TrimOldest(Consume(db.ledger, c.index, now), c.user.email);
        ConsumeTrimSameTokens(db.ledger, c.index, c.user.email, now);
        var db1 := db.(ledger := trimmed, blacklist := b.value);
        SameTokensInv(db.(blacklist := b.value), trimmed);
        forall i | 0 <= i < |trimmed| ensures OtherJti(trimmed[i], jti) {
          assert OtherJti(db.ledger[i], jti) && trimmed[i].token == db.ledger[i].token;
        }
        RefreshTokenValidates(secret, c.user, jti, now, now);
        AppendFreshInv(db1, secret, c.user, jti, now, now + RefreshTokenTtl);
      }
    }
  }

  lemma CleanupOldTokensInv(db: Db, owner: string, now: int)
    requires Inv(db)
    ensures Inv(CleanupOldTokens(db, owner, now))
  {
    SweepOnlyRevokes(db.ledger, owner, now);
    OnlyRevokesSameTokens(db.ledger, SweepUser(db.ledger, owner, now).ledger, owner);
    SameTokensInv(db, SweepUser(db.ledger, owner, now).ledger);
  }

  lemma EndSessionInv(db: Db, i: nat, owner: string, accessToken: string, secret: string, now: int)
    requires Inv(db) && i < |db.ledger|
    ensures Inv(EndSession(db, i, owner, accessToken, secret, now).db)
  {
    var used := Consume(db.ledger, i, now);
    assert SameTokens(db.ledger, used);
    SameTokensInv(db, used);
    var exp := GetExpirationDateFromToken(secret, accessToken, now);
    if exp.Ok? {
      var ins := Insert(db.blacklist, accessToken, BlacklistEntry(exp.value, now, owner));
      if ins.Ok? {
        CleanupOldTokensInv(db.(ledger := used, blacklist := ins.value), owner, now);
      }
    }
  }

  lemma LogoutInv(db: Db, refreshToken: Option<string>, accessToken: string, secret: string, now: int)
    requires Inv(db)
    ensures Inv(Logout(db, refreshToken, accessToken, secret, now).db)
  {
    var email := ValidateToken(secret, refreshToken, now);
    if email.Some? && email.value in db.users {
      var found := FindByToken(db.ledger, refreshToken.value);
      if found.Some? {
        var i := found.value;
        var marked := db.ledger[i := db.ledger[i].(isRevoked := true)];
        assert SameTokens(db.ledger, marked);
        SameTokensInv(db, marked);
        EndSessionInv(db, i, db.users[email.value].email, accessToken, secret, now);
      }
    }
  }

  /** Deleting expired blacklist rows leaves users and ledger, and so the invariant, alone. */
  lemma DeleteExpiredTokensInv(db: Db, now: int)
    requires Inv(db)
    ensures Inv(db.(blacklist := BlacklistedTokenRepository.DeleteExpiredTokens(db.blacklist, now)))
  {
  }
}
