/**
 * `JwtCustomFilter.doFilterInternal`: the chain of early returns that decides
 * whether a request passes through unauthenticated, is refused with 401, or
 * is authenticated as a stored user with a list of authorities.
 */
module JwtFilter {
  import opened Wrappers
  import opened Entities
  import opened JwtUtil
  import opened BlacklistedTokenRepository
  import opened Persistence

  /** The scheme prefix the filter looks for. */
  const Bearer: string := "Bearer "

  const RevokedMessage: string := "Token has been revoked"
  const InvalidMessage: string := "Token failed validation"
  const NoUserMessage: string := "User not found for given token"

  predicate StartsWith(s: string, prefix: string) {
    |prefix| <= |s| && s[..|prefix|] == prefix
  }

  /**
   * `s.replace("Bearer ", "")`: scanning left to right, every occurrence of
   * "Bearer " is removed, not only a leading one.
   */
  function RemoveBearer(s: string): (r: string)
    ensures |r| <= |s|
    decreases |s|
  {
    if s == [] then []
    else if StartsWith(s, Bearer) then RemoveBearer(s[|Bearer|..])
    else [s[0]] + RemoveBearer(s[1..])
  }

  /**
   * A string without a space holds no "Bearer ", so nothing is removed from it.
   * A real JWT is three base64url segments joined by dots and never holds a
   * space; the tokens of this model write names verbatim and may, so lemmas
   * about extracting a bearer token state the absence of spaces as a premise.
   */
  lemma {:induction false} RemoveBearerNoSpace(t: string)
    requires ' ' !in t
    ensures RemoveBearer(t) == t
    decreases |t|
  {
    if t != [] {
      assert !StartsWith(t, Bearer) by {
        assert Bearer[6] == ' ';
      }
      RemoveBearerNoSpace(t[1..]);
      assert [t[0]] + t[1..] == t;
    }
  }

  /** The header of a request that passes the prefix check: its token is what follows the prefix, for a token without spaces. */
  lemma BearerTokenExtracted(t: string)
    requires ' ' !in t
    ensures StartsWith(Bearer + t, Bearer) && RemoveBearer(Bearer + t) == t
  {
    var h := Bearer + t;
    assert h[..|Bearer|] == Bearer;
    assert h[|Bearer|..] == t;
    RemoveBearerNoSpace(t);
  }

  /** A second "Bearer " inside the header is removed too, and the two pieces are joined. */
  lemma RemoveBearerInside()
    ensures RemoveBearer("Bearer aBearer b") == "ab"
  {
    var s := "Bearer aBearer b";
    assert StartsWith(s, Bearer);
    assert s[7..] == "aBearer b";
    assert "aBearer b"[..7][0] != Bearer[0];
    assert "aBearer b"[1..] == "Bearer b";
    assert StartsWith("Bearer b", Bearer);
    assert "Bearer b"[7..] == "b";
    assert !StartsWith("b", Bearer) && "ab" == ['a'] + "b";
    assert "b"[1..] == [];
  }

  // ------------------------------------------------------------ authorities

  /** One "ROLE_" + name per role, in the order of the roles. */
  function RoleAuthorities(roles: seq<Role>): (r: seq<string>)
    ensures |r| == |roles|
  {
    seq(|roles|, i requires 0 <= i < |roles| => "ROLE_" + roles[i].name)
  }

  /** Every permission name of every role, role after role, duplicates kept. */
  function PermissionAuthorities(roles: seq<Role>): seq<string> {
    if roles == [] then [] else PermissionAuthorities(roles[..|roles| - 1]) + roles[|roles| - 1].permissions
  }

  /** The authorities the filter grants: the role authorities followed by the permission names. */
  function FilterAuthorities(roles: seq<Role>): seq<string> {
    RoleAuthorities(roles) + PermissionAuthorities(roles)
  }

  /**
   * What the filter grants: "ROLE_" + each role name at the role's position,
   * then exactly the permission names some role holds, duplicates allowed;
   * no upper-casing, unlike `User.getAuthorities`.
   */
  lemma {:induction false} FilterAuthoritiesMembers(roles: seq<Role>)
    ensures var a := FilterAuthorities(roles);
            |a| >= |roles| &&
            (forall i :: 0 <= i < |roles| ==> a[i] == "ROLE_" + roles[i].name) &&
            (forall p :: p in a[|roles|..] <==> exists r :: r in roles && p in r.permissions)
    decreases |roles|
  {
    var a := FilterAuthorities(roles);
    assert a[|roles|..] == PermissionAuthorities(roles);
    PermissionAuthoritiesMembers(roles);
  }

  lemma {:induction false} PermissionAuthoritiesMembers(roles: seq<Role>)
    ensures forall p :: p in PermissionAuthorities(roles) <==> exists r :: r in roles && p in r.permissions
    decreases |roles|
  {
    if roles != [] {
      var n := |roles| - 1;
      var init := roles[..n];
      PermissionAuthoritiesMembers(init);
      assert roles == init + [roles[n]];
      forall p ensures p in PermissionAuthorities(roles) <==> exists r :: r in roles && p in r.permissions {
        if p in PermissionAuthorities(roles) {
          if p in PermissionAuthorities(init) {
            var r :| r in init && p in r.permissions;
            assert r in roles;
          } else {
            assert roles[n] in roles;
          }
        } else {
          forall r | r in roles ensures p !in r.permissions {
            if r != roles[n] {
              assert r in init;
            }
          }
        }
      }
    }
  }

  /**
   * The two `forEach` loops of the filter: first one "ROLE_" authority per
   * role, then every permission of every role, appended one by one.
   */
  method BuildAuthorities(roles: seq<Role>) returns (authorities: seq<string>)
    ensures authorities == FilterAuthorities(roles)
  {
    authorities := [];
    for k := 0 to |roles|
      invariant authorities == RoleAuthorities(roles[..k])
    {
      authorities := authorities + ["ROLE_" + roles[k].name];
    }
    assert roles[..|roles|] == roles;
    for k := 0 to |roles|
      invariant authorities == RoleAuthorities(roles) + PermissionAuthorities(roles[..k])
    {
      var permissions := roles[k].permissions;
      for j := 0 to |permissions|
        invariant authorities == RoleAuthorities(roles) + PermissionAuthorities(roles[..k]) + permissions[..j]
      {
        authorities := authorities + [permissions[j]];
        assert permissions[..j + 1] == permissions[..j] + [permissions[j]];
      }
      assert permissions[..|permissions|] == permissions;
      assert roles[..k + 1][..k] == roles[..k];
    }
  }

  // --------------------------------------------------------------- decision

  datatype FilterOutcome =
    | PassThrough
    | Unauthorized(message: string)
    | Authenticated(user: User, authorities: seq<string>)

  /** The decision `doFilterInternal` takes for an `Authorization` header (None when absent). */
  function Decide(users: map<string, User>, blacklist: Blacklist, header: Option<string>,
                  secret: string, now: int): FilterOutcome {
    if header.None? || !StartsWith(header.value, Bearer) then PassThrough
    else
      var token := RemoveBearer(header.value);
      if ExistsByToken(blacklist, token) then Unauthorized(RevokedMessage)
      else
        match ValidateToken(secret, Some(token), now)
        case None => Unauthorized(InvalidMessage)
        case Some(email) =>
          if email !in users then Unauthorized(NoUserMessage)
          else Authenticated(users[email], FilterAuthorities(users[email].roles))
  }

  /**
   * The decision chain: no bearer header passes through; a blacklisted token
   * is refused before its signature is looked at; a token that does not
   * verify, or whose subject has no user, is refused; any other token
   * authenticates its subject's user, whatever that user's enabled flag or
   * lock, and whichever kind of token it is.
   */
  lemma FilterDecisions(users: map<string, User>, blacklist: Blacklist, header: Option<string>,
                        secret: string, now: int)
    ensures var o := Decide(users, blacklist, header, secret, now);
            var bearer := header.Some? && StartsWith(header.value, Bearer);
            var token := if header.Some? then RemoveBearer(header.value) else "";
            var claims := Verify(secret, token, now);
            (o.PassThrough? <==> !bearer) &&
            (o == Unauthorized(RevokedMessage) <==> bearer && token in blacklist) &&
            (o == Unauthorized(InvalidMessage) <==> bearer && token !in blacklist && claims.None?) &&
            (o == Unauthorized(NoUserMessage) <==>
               bearer && token !in blacklist && claims.Some? && claims.value.subject !in users) &&
            (o.Authenticated? <==>
               bearer && token !in blacklist && claims.Some? && claims.value.subject in users) &&
            (o.Authenticated? ==>
               o.user == users[claims.value.subject] && o.authorities == FilterAuthorities(o.user.roles))
  {
  }

  /**
   * A refresh token is accepted as a bearer credential just like an access
   * token: while unexpired and not blacklisted it authenticates its user, even
   * a disabled or locked one.
   */
  lemma RefreshTokenAuthenticates(users: map<string, User>, blacklist: Blacklist, secret: string,
                                  u: User, jti: string, issuedAt: int, now: int)
    requires u.email in users && users[u.email] == u
    requires issuedAt <= now <= issuedAt + RefreshTokenTtl
    requires ' ' !in GenerateRefreshToken(secret, u, jti, issuedAt)
    requires GenerateRefreshToken(secret, u, jti, issuedAt) !in blacklist
    ensures Decide(users, blacklist, Some(Bearer + GenerateRefreshToken(secret, u, jti, issuedAt)), secret, now) ==
            Authenticated(u, FilterAuthorities(u.roles))
  {
    BearerTokenExtracted(GenerateRefreshToken(secret, u, jti, issuedAt));
    RefreshTokenValidates(secret, u, jti, issuedAt, now);
  }

  class JwtCustomFilter {
    const store: Store
    const secret: string

    constructor(store: Store, secret: string)
      ensures this.store == store && this.secret == secret
    {
      this.store := store;
      this.secret := secret;
    }

    /** `doFilterInternal`, reading the blacklist and the users of the store and changing neither. */
    method DoFilterInternal(header: Option<string>, now: int) returns (outcome: FilterOutcome)
      ensures outcome == Decide(store.users, store.blacklist, header, secret, now)
    {
      if header.None? || !StartsWith(header.value, Bearer) {
        return PassThrough;
      }
      var token := RemoveBearer(header.value);
      if ExistsByToken(store.blacklist, token) {
        return Unauthorized(RevokedMessage);
      }
      var email := ValidateToken(secret, Some(token), now);
      if email.None? {
        return Unauthorized(InvalidMessage);
      }
      if email.value !in store.users {
        return Unauthorized(NoUserMessage);
      }
      var user := store.users[email.value];
      var authorities := BuildAuthorities(user.roles);
      return Authenticated(user, authorities);
    }
  }
}
