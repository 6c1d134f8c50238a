/**
 * The persistent entities: User (with its UserDetails view), Role, the refresh-token
 * ledger record and the blacklist row.  Time is an integer number of seconds.
 */
module Entities {
  import opened Wrappers

  /** A role and the names of its permissions, in the role's iteration order. */
  datatype Role = Role(name: string, permissions: seq<string>)

  /**
   * A user account.  `roles` lists the user's role set in iteration order; a
   * nullable timestamp is an `Option<int>`.  `password` holds the encoded hash.
   */
  datatype User = User(
    id: string,
    nickname: string,
    email: string,
    password: string,
    roles: seq<Role>,
    isEnabled: bool,
    createdAt: int,
    lastLoginAt: Option<int>,
    failedLoginAttempts: int,
    deactivatedAt: Option<int>,
    accountLockedUntil: Option<int>)
  {
    /** UserDetails: the login name is the email. */
    function GetUsername(): string { email }

    /** UserDetails: the stored password hash. */
    function GetPassword(): string { password }

    /** UserDetails: accounts never expire. */
    function IsAccountNonExpired(): bool { true }

    /** UserDetails: credentials never expire. */
    function IsCredentialsNonExpired(): bool { true }

    /** UserDetails: the stored enabled flag. */
    function IsEnabled(): bool { isEnabled }

    /**
     * UserDetails: not locked when there is no lock timestamp or when it lies
     * strictly before `now` (`isBefore`), so a lock ending exactly now still locks.
     */
    function IsAccountNonLocked(now: int): bool {
      accountLockedUntil.None? || accountLockedUntil.value < now
    }

    /**
     * The lock test that login and refresh use: locked only while the lock
     * timestamp lies strictly after `now` (`isAfter`).
     */
    predicate LockedAt(now: int) {
      accountLockedUntil.Some? && accountLockedUntil.value > now
    }

    /**
     * `getAuthorities`: a hash set filled, role by role, with the upper-cased
     * role name and the upper-cased names of the role's permissions.
     */
    method GetAuthorities() returns (auths: set<string>)
      ensures auths == AuthoritySet(roles)
      ensures forall a :: a in auths <==> exists i :: 0 <= i < |roles| && GrantedBy(roles[i], a)
    {
      auths := {};
      for i := 0 to |roles|
        invariant auths == AuthoritySet(roles[..i])
      {
        var role := roles[i];
        auths := auths + {Upper(role.name)};
        for j := 0 to |role.permissions|
          invariant auths == AuthoritySet(roles[..i]) + {Upper(role.name)} + UpperAll(role.permissions[..j])
        {
          UpperAllSnoc(role.permissions, j);
          auths := auths + {Upper(role.permissions[j])};
        }
        assert role.permissions[..|role.permissions|] == role.permissions;
        assert roles[..i + 1][..i] == roles[..i];
      }
      assert roles[..|roles|] == roles;
      AuthoritySetMembers(roles);
    }
  }

  /** A fresh `new User()`: disabled, no failed attempts, no lock and no login yet. */
  function NewUser(now: int): (u: User)
    ensures !u.isEnabled && u.failedLoginAttempts == 0
    ensures u.accountLockedUntil.None? && u.lastLoginAt.None? && u.deactivatedAt.None?
    ensures u.roles == [] && u.createdAt == now
  {
    User("", "", "", "", [], false, now, None, 0, None, None)
  }

  /**
   * The UserDetails view of a user: the login name is the email, the password
   * is the stored hash, accounts and credentials never expire and the enabled
   * flag is the stored one.
   */
  lemma UserDetailsView(u: User)
    ensures u.GetUsername() == u.email && u.GetPassword() == u.password
    ensures u.IsAccountNonExpired() && u.IsCredentialsNonExpired()
    ensures u.IsEnabled() <==> u.isEnabled
  {
  }

  /** Upper-casing of one character; only ASCII letters change. */
  function UpperChar(c: char): char {
    if 'a' <= c <= 'z' then (c as int - 32) as char else c
  }

  /** `String.toUpperCase`, restricted to ASCII. */
  function Upper(s: string): (r: string)
    ensures |r| == |s|
    ensures forall i :: 0 <= i < |s| ==> r[i] == UpperChar(s[i])
  {
    seq(|s|, i requires 0 <= i < |s| => UpperChar(s[i]))
  }

  function UpperAll(ps: seq<string>): set<string> {
    set p | p in ps :: Upper(p)
  }

  lemma UpperAllSnoc(ps: seq<string>, j: nat)
    requires j < |ps|
    ensures UpperAll(ps[..j + 1]) == UpperAll(ps[..j]) + {Upper(ps[j])}
  {
    assert ps[..j + 1] == ps[..j] + [ps[j]];
  }

  /** The authorities one role grants in `getAuthorities`. */
  predicate GrantedBy(role: Role, a: string) {
    a == Upper(role.name) || a in UpperAll(role.permissions)
  }

  /** The authority set of a role list, as `getAuthorities` accumulates it. */
  function AuthoritySet(roles: seq<Role>): set<string> {
    if roles == [] then {}
    else
      var last := roles[|roles| - 1];
      AuthoritySet(roles[..|roles| - 1]) + {Upper(last.name)} + UpperAll(last.permissions)
  }

  lemma {:induction false} AuthoritySetMembers(roles: seq<Role>)
    ensures forall a :: a in AuthoritySet(roles) <==> exists i :: 0 <= i < |roles| && GrantedBy(roles[i], a)
  {
    if roles != [] {
      var init := roles[..|roles| - 1];
      AuthoritySetMembers(init);
      forall a
        ensures a in AuthoritySet(roles) <==> exists i :: 0 <= i < |roles| && GrantedBy(roles[i], a)
      {
        if a in AuthoritySet(init) {
          var i :| 0 <= i < |init| && GrantedBy(init[i], a);
          assert roles[i] == init[i];
        }
        if exists i :: 0 <= i < |roles| && GrantedBy(roles[i], a) {
          var i :| 0 <= i < |roles| && GrantedBy(roles[i], a);
          if i < |init| {
            assert init[i] == roles[i];
          }
        }
      }
    }
  }

  /** A row of the refresh-token ledger; `owner` is the owning user's email. */
  datatype RefreshRecord = RefreshRecord(
    token: string,
    owner: string,
    createdAt: int,
    expiresAt: int,
    isRevoked: bool,
    lastUsedAt: Option<int>)

  /** A blacklist row; the revoked access-token string is the key of its table. */
  datatype BlacklistEntry = BlacklistEntry(expiresAt: int, revokedAt: int, owner: string)
}
