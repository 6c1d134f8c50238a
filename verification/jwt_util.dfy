/**
 * JwtUtil: token claims, the expiry policy and the verification outcomes.
 *
 * A token string is `EncStr(tag) + payload`, where `payload` is the Wire
 * encoding of the claims and `tag` is `Mac(secret, payload)`.  `Mac` stands in
 * for HMAC-SHA256: a token verifies only when its tag is the one the server
 * secret gives its payload.  Cryptographic strength is not modelled.
 */
module JwtUtil {
  import opened Wrappers
  import opened Errors
  import opened Wire
  import opened Entities

  const Issuer: string := "iam-api"

  /** Access tokens live 15 minutes. */
  const AccessTokenTtl: int := 900

  /** Refresh tokens live 7 days. */
  const RefreshTokenTtl: int := 604800

  /** The claims a token carries; `expiresAt` is the `exp` claim in seconds. */
  datatype Token = Token(
    issuer: string,
    subject: string,
    jti: Option<string>,
    roles: seq<string>,
    permissions: seq<string>,
    expiresAt: int)

  function EncodeClaims(t: Token): string {
    EncStr(t.issuer) + (EncStr(t.subject) + (EncOpt(t.jti) +
      (EncList(t.roles) + (EncList(t.permissions) + EncInt(t.expiresAt)))))
  }

  function ParseClaims(s: string): Option<(Token, string)> {
    match DecStr(s)
    case None => None
    case Some((iss, s1)) =>
      match DecStr(s1)
      case None => None
      case Some((sub, s2)) =>
        match DecOpt(s2)
        case None => None
        case Some((jti, s3)) =>
          match DecList(s3)
          case None => None
          case Some((roles, s4)) =>
            match DecList(s4)
            case None => None
            case Some((perms, s5)) =>
              match DecInt(s5)
              case None => None
              case Some((exp, s6)) => Some((Token(iss, sub, jti, roles, perms, exp), s6))
  }

  lemma ParseEncodeClaims(t: Token, rest: string)
    ensures ParseClaims(EncodeClaims(t) + rest) == Some((t, rest))
  {
    var s5 := EncInt(t.expiresAt) + rest;
    var s4 := EncList(t.permissions) + s5;
    var s3 := EncList(t.roles) + s4;
    var s2 := EncOpt(t.jti) + s3;
    var s1 := EncStr(t.subject) + s2;
    assert EncodeClaims(t) + rest == EncStr(t.issuer) + s1;
    DecEncStr(t.issuer, s1);
    DecEncStr(t.subject, s2);
    DecEncOpt(t.jti, s3);
    DecEncList(t.roles, s4);
    DecEncList(t.permissions, s5);
    DecEncInt(t.expiresAt, rest);
  }

  /** The claims of a complete payload, or None when it is malformed. */
  function DecodeClaims(payload: string): Option<Token> {
    match ParseClaims(payload)
    case None => None
    case Some((t, rest)) => if rest == [] then Some(t) else None
  }

  /** The stand-in for the HMAC-SHA256 tag of `payload` under `secret`. */
  function Mac(secret: string, payload: string): string {
    secret + payload
  }

  /** `JWT.create()...sign(algorithm)`: the token string for the claims `t`. */
  function Sign(secret: string, t: Token): string {
    var payload := EncodeClaims(t);
    EncStr(Mac(secret, payload)) + payload
  }

  /** The claims written in a token string, read without checking anything. */
  function Peek(token: string): Option<Token> {
    match DecStr(token)
    case None => None
    case Some((_, payload)) => DecodeClaims(payload)
  }

  /**
   * `JWT.require(algorithm).withIssuer("iam-api").build().verify(token)`: the
   * claims of a well-formed token whose tag matches, whose issuer is "iam-api"
   * and whose `exp` is not before `now`; None for every failure.
   */
  function Verify(secret: string, token: string, now: int): (r: Option<Token>)
    ensures r.Some? ==> Peek(token) == r
    ensures r.Some? ==> r.value.issuer == Issuer && now <= r.value.expiresAt
  {
    match DecStr(token)
    case None => None
    case Some((tag, payload)) =>
      if tag != Mac(secret, payload) then None
      else
        match DecodeClaims(payload)
        case None => None
        case Some(t) =>
          if t.issuer != Issuer || t.expiresAt < now then None else Some(t)
  }

  lemma PeekSign(secret: string, t: Token)
    ensures Peek(Sign(secret, t)) == Some(t)
  {
    var payload := EncodeClaims(t);
    DecEncStr(Mac(secret, payload), payload);
    ParseEncodeClaims(t, []);
    assert payload + [] == payload;
  }

  /** The codec round trip: a token signed with the secret verifies exactly while it is unexpired. */
  lemma VerifySign(secret: string, t: Token, now: int)
    ensures Verify(secret, Sign(secret, t), now) ==
            if t.issuer == Issuer && now <= t.expiresAt then Some(t) else None
  {
    var payload := EncodeClaims(t);
    DecEncStr(Mac(secret, payload), payload);
    ParseEncodeClaims(t, []);
    assert payload + [] == payload;
  }

  /** A token signed under another secret never verifies. */
  lemma VerifyOtherSecret(secret: string, other: string, t: Token, now: int)
    requires other != secret
    ensures Verify(other, Sign(secret, t), now) == None
  {
    var payload := EncodeClaims(t);
    DecEncStr(Mac(secret, payload), payload);
    if |other| == |secret| {
      var k :| 0 <= k < |other| && other[k] != secret[k];
      assert Mac(other, payload)[k] != Mac(secret, payload)[k];
    } else {
      assert |Mac(other, payload)| != |Mac(secret, payload)|;
    }
  }

  /** A malformed string (here the empty one) never verifies. */
  lemma VerifyMalformed(secret: string, now: int)
    ensures Verify(secret, "", now) == None
  {
  }

  /** `collectRoles`: one role name per role, in the roles' order. */
  function CollectRoles(user: User): (r: seq<string>)
    ensures |r| == |user.roles|
    ensures forall i :: 0 <= i < |r| ==> r[i] == user.roles[i].name
  {
    RoleNames(user.roles)
  }

  function RoleNames(roles: seq<Role>): (r: seq<string>)
    ensures |r| == |roles|
    ensures forall i :: 0 <= i < |r| ==> r[i] == roles[i].name
  {
    if roles == [] then [] else [roles[0].name] + RoleNames(roles[1..])
  }

  predicate NoDup(s: seq<string>) {
    forall i, j :: 0 <= i < j < |s| ==> s[i] != s[j]
  }

  /** Some role of `roles` holds the permission `p`. */
  predicate HeldBy(roles: seq<Role>, p: string) {
    exists i :: 0 <= i < |roles| && p in roles[i].permissions
  }

  /** `Stream.distinct` continued over `xs`: appends each element not seen before. */
  function AppendDistinct(acc: seq<string>, xs: seq<string>): (r: seq<string>)
    requires NoDup(acc)
    ensures NoDup(r)
    ensures forall x :: x in r <==> x in acc || x in xs
    decreases |xs|
  {
    if xs == [] then acc
    else if xs[0] in acc then AppendDistinct(acc, xs[1..])
    else AppendDistinct(acc + [xs[0]], xs[1..])
  }

  function DistinctPermissions(acc: seq<string>, roles: seq<Role>): (r: seq<string>)
    requires NoDup(acc)
    ensures NoDup(r)
    ensures forall p :: p in r <==> p in acc || HeldBy(roles, p)
    decreases |roles|
  {
    if roles == [] then acc
    else
      var r := DistinctPermissions(AppendDistinct(acc, roles[0].permissions), roles[1..]);
      assert forall p :: HeldBy(roles, p) <==> p in roles[0].permissions || HeldBy(roles[1..], p) by {
        forall p ensures HeldBy(roles, p) ==> p in roles[0].permissions || HeldBy(roles[1..], p) {
          if HeldBy(roles, p) {
            var i :| 0 <= i < |roles| && p in roles[i].permissions;
            if i > 0 { assert roles[1..][i - 1] == roles[i]; }
          }
        }
        forall p ensures HeldBy(roles[1..], p) ==> HeldBy(roles, p) {
          if HeldBy(roles[1..], p) {
            var i :| 0 <= i < |roles[1..]| && p in roles[1..][i].permissions;
            assert roles[i + 1] == roles[1..][i];
          }
        }
      }
      r
  }

  /** `collectPermissions`: every permission of every role, each exactly once, and nothing else. */
  function CollectPermissions(user: User): (r: seq<string>)
    ensures NoDup(r)
    ensures forall p :: p in r <==> HeldBy(user.roles, p)
  {
    DistinctPermissions([], user.roles)
  }

  /** `generateAccessToken`: issuer, subject = email, role and permission claims, exp = now + 900; no jti. */
  function GenerateAccessToken(secret: string, user: User, now: int): string {
    Sign(secret, Token(Issuer, user.email, None, CollectRoles(user), CollectPermissions(user),
                       now + AccessTokenTtl))
  }

  /** `generateRefreshToken`: as an access token, with the random `jti` and exp = now + 604800. */
  function GenerateRefreshToken(secret: string, user: User, jti: string, now: int): string {
    Sign(secret, Token(Issuer, user.email, Some(jti), CollectRoles(user), CollectPermissions(user),
                       now + RefreshTokenTtl))
  }

  /**
   * `validateToken`: the subject of a verifying token; None (Java's null) for a
   * null string and for every verification failure alike.
   */
  function ValidateToken(secret: string, token: Option<string>, now: int): (r: Option<string>)
    ensures r.Some? <==> token.Some? && Verify(secret, token.value, now).Some?
    ensures r.Some? ==> r.value == Verify(secret, token.value, now).value.subject
  {
    match token
    case None => None
    case Some(s) =>
      match Verify(secret, s, now)
      case None => None
      case Some(t) => Some(t.subject)
  }

  /**
   * `getExpirationDateFromToken`: the `exp` claim of a verifying token; any
   * verification failure raises FAILED_TO_GET_EXPIRATION_TIME.
   */
  function GetExpirationDateFromToken(secret: string, token: string, now: int): (r: Result<int, ErrorCode>)
    ensures r.Ok? <==> Verify(secret, token, now).Some?
    ensures r.Ok? ==> r.value == Verify(secret, token, now).value.expiresAt && now <= r.value
    ensures r.Err? ==> r.error == FailedToGetExpirationTime
  {
    match Verify(secret, token, now)
    case None => Err(FailedToGetExpirationTime)
    case Some(t) => Ok(t.expiresAt)
  }

  /** The claims of a generated access token: expiry issue time + 900 s and no jti. */
  lemma AccessTokenClaims(secret: string, user: User, now: int)
    ensures Peek(GenerateAccessToken(secret, user, now)) ==
            Some(Token(Issuer, user.email, None, CollectRoles(user), CollectPermissions(user),
                       now + AccessTokenTtl))
  {
    PeekSign(secret, Token(Issuer, user.email, None, CollectRoles(user), CollectPermissions(user),
                           now + AccessTokenTtl));
  }

  /** The claims of a generated refresh token: expiry issue time + 604800 s and the given jti. */
  lemma RefreshTokenClaims(secret: string, user: User, jti: string, now: int)
    ensures Peek(GenerateRefreshToken(secret, user, jti, now)) ==
            Some(Token(Issuer, user.email, Some(jti), CollectRoles(user), CollectPermissions(user),
                       now + RefreshTokenTtl))
  {
    PeekSign(secret, Token(Issuer, user.email, Some(jti), CollectRoles(user), CollectPermissions(user),
                           now + RefreshTokenTtl));
  }

  /**
   * Round trip for a freshly generated access token: it validates to the
   * user's email for 900 s after issue and fails afterwards.
   */
  lemma AccessTokenValidates(secret: string, user: User, issuedAt: int, now: int)
    requires issuedAt <= now
    ensures ValidateToken(secret, Some(GenerateAccessToken(secret, user, issuedAt)), now) ==
            if now <= issuedAt + AccessTokenTtl then Some(user.email) else None
  {
    VerifySign(secret, Token(Issuer, user.email, None, CollectRoles(user), CollectPermissions(user),
                             issuedAt + AccessTokenTtl), now);
  }

  /**
   * Round trip for a freshly generated refresh token: it validates to the
   * user's email until its exp, and its expiry reads back as issue time + 604800.
   */
  lemma RefreshTokenValidates(secret: string, user: User, jti: string, issuedAt: int, now: int)
    requires issuedAt <= now
    ensures ValidateToken(secret, Some(GenerateRefreshToken(secret, user, jti, issuedAt)), now) ==
            if now <= issuedAt + RefreshTokenTtl then Some(user.email) else None
    ensures GetExpirationDateFromToken(secret, GenerateRefreshToken(secret, user, jti, issuedAt), issuedAt) ==
            Ok(issuedAt + RefreshTokenTtl)
  {
    var t := Token(Issuer, user.email, Some(jti), CollectRoles(user), CollectPermissions(user),
                   issuedAt + RefreshTokenTtl);
    VerifySign(secret, t, now);
    VerifySign(secret, t, issuedAt);
  }

  /** Failures are indistinguishable: a wrong issuer and an expired exp both give null, like a bad tag. */
  lemma ValidateTokenFailures(secret: string, t: Token, now: int)
    requires t.issuer != Issuer || t.expiresAt < now
    ensures ValidateToken(secret, Some(Sign(secret, t)), now) == None
    ensures GetExpirationDateFromToken(secret, Sign(secret, t), now) == Err(FailedToGetExpirationTime)
  {
    VerifySign(secret, t, now);
  }

  /** Two refresh tokens with different jti differ, and no access token equals a refresh token. */
  lemma GeneratedTokensDiffer(secret: string, u1: User, u2: User, jti1: string, jti2: string, t1: int, t2: int)
    ensures jti1 != jti2 ==> GenerateRefreshToken(secret, u1, jti1, t1) != GenerateRefreshToken(secret, u2, jti2, t2)
    ensures GenerateAccessToken(secret, u1, t1) != GenerateRefreshToken(secret, u2, jti2, t2)
  {
    RefreshTokenClaims(secret, u1, jti1, t1);
    RefreshTokenClaims(secret, u2, jti2, t2);
    AccessTokenClaims(secret, u1, t1);
  }
}
