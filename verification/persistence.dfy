/**
 * The stores the services share: users keyed by email, roles keyed by name,
 * the refresh-token ledger and the blacklist.  `Store` is the mutable
 * database; each `save` of a repository is one of its methods, and `Db` is the
 * value of all four tables at one instant.
 */
module Persistence {
  import opened Wrappers
  import opened Errors
  import opened Entities
  import opened RefreshTokenRepository
  import BlacklistedTokenRepository
  import opened Sweep

  datatype Db = Db(
    users: map<string, User>,
    roles: map<string, Role>,
    ledger: seq<RefreshRecord>,
    blacklist: map<string, BlacklistEntry>)

  /** Some stored user already has this nickname (the column is unique). */
  predicate NicknameTaken(users: map<string, User>, nickname: string) {
    exists e :: e in users && users[e].nickname == nickname
  }

  class Store {
    var users: map<string, User>
    var roles: map<string, Role>
    var ledger: seq<RefreshRecord>
    var blacklist: map<string, BlacklistEntry>

    constructor(db: Db)
      ensures State() == db
    {
      users := db.users;
      roles := db.roles;
      ledger := db.ledger;
      blacklist := db.blacklist;
    }

    function State(): Db
      reads this
    {
      Db(users, roles, ledger, blacklist)
    }

    /** `userRepository.save` of a loaded user: its row is overwritten. */
    method SaveUser(u: User)
      modifies this
      ensures State() == old(State()).(users := old(users)[u.email := u])
    {
      users := users[u.email := u];
    }

    /**
     * `userRepository.save` of a new user: the unique email and nickname
     * columns refuse a second row with either value.
     */
    method InsertUser(u: User) returns (ok: bool)
      modifies this
      ensures ok <==> u.email !in old(users) && !NicknameTaken(old(users), u.nickname)
      ensures State() == if ok then old(State()).(users := old(users)[u.email := u]) else old(State())
    {
      ok := u.email !in users && !NicknameTaken(users, u.nickname);
      if ok {
        users := users[u.email := u];
      }
    }

    /** `refreshTokenRepository.save` of a loaded record: its row is overwritten. */
    method SaveRecordAt(i: nat, rec: RefreshRecord)
      requires i < |ledger|
      modifies this
      ensures State() == old(State()).(ledger := old(ledger)[i := rec])
    {
      ledger := ledger[i := rec];
    }

    /** `refreshTokenRepository.save` of a new record: one row is appended. */
    method AppendRecord(rec: RefreshRecord)
      modifies this
      ensures State() == old(State()).(ledger := old(ledger) + [rec])
    {
      ledger := ledger + [rec];
    }

    /** `blacklistedTokenRepository.save` of a new row, refused for a token string already present. */
    method SaveBlacklisted(token: string, entry: BlacklistEntry) returns (r: Result<(), ErrorCode>)
      modifies this
      ensures var ins := BlacklistedTokenRepository.Insert(old(blacklist), token, entry);
              if ins.Ok? then r.Ok? && State() == old(State()).(blacklist := ins.value)
              else r == Err(ins.error) && State() == old(State())
    {
      var ins := BlacklistedTokenRepository.Insert(blacklist, token, entry);
      if ins.Ok? {
        blacklist := ins.value;
        r := Ok(());
      } else {
        r := Err(ins.error);
      }
    }

    /** `deleteExpiredTokens(now)` run against the blacklist table. */
    method DeleteExpiredTokens(now: int)
      modifies this
      ensures State() == old(State()).(blacklist := BlacklistedTokenRepository.DeleteExpiredTokens(old(blacklist), now))
    {
      blacklist := BlacklistedTokenRepository.DeleteExpiredTokens(blacklist, now);
    }

    /**
     * `forEach(token -> { token.setIsRevoked(true); save(token); })` over the
     * records a query loaded: each is saved back with `isRevoked` set.
     */
    method RevokeEach(idxs: seq<nat>)
      requires InBounds(ledger, idxs)
      modifies this
      ensures State() == old(State()).(ledger := RevokeAll(old(ledger), idxs))
    {
      var loaded := ledger;
      for k := 0 to |idxs|
        invariant users == old(users) && roles == old(roles) && blacklist == old(blacklist)
        invariant ledger == RevokeAll(loaded, idxs[..k])
      {
        var i := idxs[k];
        assert idxs[..k + 1] == idxs[..k] + [i];
        SaveRecordAt(i, loaded[i].(isRevoked := true));
      }
      assert idxs[..|idxs|] == idxs;
    }
  }
}
