/**
 * `createUser`: its refusals, the single user row it adds, and the account the
 * new user starts with.
 */
module Registration {
  import opened Wrappers
  import opened Errors
  import opened Entities
  import opened Persistence
  import opened Requests
  import opened AuthSpec

  /**
   * `createUser` refuses a taken email, a missing USER role and a taken
   * nickname, in that order, saving nothing; otherwise it adds exactly one
   * user, under the request's email, and touches nothing else.
   */
  lemma CreateUserOutcomes(db: Db, req: RegisterRequest, id: string, encoder: PasswordEncoder, now: int)
    ensures var s := CreateUser(db, req, id, encoder, now);
            (req.email in db.users ==> s == Step(db, Err(UserAlreadyExists))) &&
            (req.email !in db.users && "USER" !in db.roles ==> s == Step(db, Err(RoleNotFound))) &&
            (req.email !in db.users && "USER" in db.roles && NicknameTaken(db.users, req.nickname) ==>
               s == Step(db, Err(DataIntegrityViolation))) &&
            (s.result.Ok? <==>
               req.email !in db.users && "USER" in db.roles && !NicknameTaken(db.users, req.nickname)) &&
            (s.result.Err? ==> s.db == db) &&
            (s.result.Ok? ==>
               s.db.users.Keys == db.users.Keys + {req.email} &&
               |s.db.users| == |db.users| + 1 &&
               (forall e :: e in db.users ==> s.db.users[e] == db.users[e]) &&
               s.db.users[req.email] == RegisteredUser(req, id, encoder, db.roles["USER"], now) &&
               s.db.roles == db.roles && s.db.ledger == db.ledger && s.db.blacklist == db.blacklist)
  {
  }

  /**
   * A registered user starts enabled, unlocked, with no failed attempt and no
   * login yet, holding the USER role only, with the encoded password; its
   * authorities are those the USER role grants.
   */
  lemma RegisteredUserStarts(req: RegisterRequest, id: string, encoder: PasswordEncoder, role: Role, now: int,
                             later: int)
    ensures var u := RegisteredUser(req, id, encoder, role, now);
            u.id == id && u.email == req.email && u.nickname == req.nickname &&
            u.GetUsername() == req.email &&
            u.password == encoder.encode(req.password) &&
            u.isEnabled && u.failedLoginAttempts == 0 && u.createdAt == now &&
            u.lastLoginAt.None? && u.deactivatedAt.None? &&
            u.IsAccountNonLocked(later) && !u.LockedAt(later) &&
            u.roles == [role] &&
            (forall a :: a in AuthoritySet(u.roles) <==> GrantedBy(role, a))
  {
    AuthoritySetMembers([role]);
  }

  /** Stored nicknames are unique, as the column's unique key demands. */
  predicate UniqueNicknames(users: map<string, User>) {
    forall e1, e2 :: e1 in users && e2 in users && e1 != e2 ==> users[e1].nickname != users[e2].nickname
  }

  /** `createUser` keeps nicknames unique: it refuses a nickname already stored. */
  lemma CreateUserKeepsNicknamesUnique(db: Db, req: RegisterRequest, id: string, encoder: PasswordEncoder, now: int)
    requires UniqueNicknames(db.users)
    ensures UniqueNicknames(CreateUser(db, req, id, encoder, now).db.users)
  {
    var s := CreateUser(db, req, id, encoder, now);
    if s.result.Ok? {
      forall e1, e2 | e1 in s.db.users && e2 in s.db.users && e1 != e2
        ensures s.db.users[e1].nickname != s.db.users[e2].nickname
      {
        if e1 == req.email {
          assert !(e2 in db.users && db.users[e2].nickname == req.nickname);
        } else if e2 == req.email {
          assert !(e1 in db.users && db.users[e1].nickname == req.nickname);
        }
      }
    }
  }

  /** A freshly registered user can log in at once: none of the checks before the password refuses them. */
  lemma RegisteredUserPassesLoginChecks(db: Db, req: RegisterRequest, id: string, encoder: PasswordEncoder,
                                        now: int, later: int)
    requires CreateUser(db, req, id, encoder, now).result.Ok?
    ensures var s := CreateUser(db, req, id, encoder, now);
            LoginGuard(s.db, req.email, later) == Ok(s.db.users[req.email])
  {
  }

  /** Registering the same email twice fails the second time with USER_ALREADY_EXISTS. */
  lemma RegisterTwiceRejected(db: Db, req: RegisterRequest, req2: RegisterRequest, id: string, id2: string,
                              encoder: PasswordEncoder, now: int, later: int)
    requires CreateUser(db, req, id, encoder, now).result.Ok? && req2.email == req.email
    ensures var s := CreateUser(db, req, id, encoder, now);
            CreateUser(s.db, req2, id2, encoder, later) == Step(s.db, Err(UserAlreadyExists))
  {
  }
}
