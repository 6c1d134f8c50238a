/**
 * RefreshTokenRepository: the six derived queries over the refresh-token
 * ledger, read off their Spring Data method names.  The ledger is a sequence
 * of records; a query answers with ledger indices, which stand for the loaded
 * entities (rows are never deleted, so an index keeps naming the same row).
 */
module RefreshTokenRepository {
  import opened Wrappers
  import opened Entities

  /** Active for `owner`: a row of that user whose `isRevoked` is false. */
  predicate Active(r: RefreshRecord, owner: string) {
    r.owner == owner && !r.isRevoked
  }

  /** The row conditions of the two list queries. */
  datatype Filter =
    | ActiveOf(owner: string)
    | ExpiredActiveOf(owner: string, before: int)

  predicate Matches(f: Filter, r: RefreshRecord) {
    match f
    case ActiveOf(owner) => Active(r, owner)
    case ExpiredActiveOf(owner, before) => Active(r, owner) && r.expiresAt < before
  }

  predicate Increasing(s: seq<nat>) {
    forall a, b :: 0 <= a < b < |s| ==> s[a] < s[b]
  }

  predicate Distinct(s: seq<nat>) {
    forall a, b :: 0 <= a < b < |s| ==> s[a] != s[b]
  }

  predicate InBounds(ledger: seq<RefreshRecord>, s: seq<nat>) {
    forall k :: 0 <= k < |s| ==> s[k] < |ledger|
  }

  /** The indices of the rows matching `f`, in ledger order. */
  function Select(ledger: seq<RefreshRecord>, f: Filter): (r: seq<nat>)
    ensures Increasing(r) && InBounds(ledger, r)
    ensures forall i: nat :: i in r <==> i < |ledger| && Matches(f, ledger[i])
  {
    if ledger == [] then []
    else
      var n := |ledger| - 1;
      var init := Select(ledger[..n], f);
      assert forall i :: 0 <= i < n ==> ledger[..n][i] == ledger[i];
      if Matches(f, ledger[n]) then init + [n] else init
  }

  /** The set of the rows active for `owner`, the reference for counting. */
  function ActiveSet(ledger: seq<RefreshRecord>, owner: string): set<nat> {
    set i: nat | i < |ledger| && Active(ledger[i], owner)
  }

  /** `findByToken`: the row holding exactly this token string, revoked or not. */
  function FindByToken(ledger: seq<RefreshRecord>, token: string): (r: Option<nat>)
    ensures r.Some? ==> r.value < |ledger| && ledger[r.value].token == token
    ensures r.None? <==> forall i :: 0 <= i < |ledger| ==> ledger[i].token != token
  {
    if ledger == [] then None
    else
      var n := |ledger| - 1;
      if ledger[n].token == token then Some(n)
      else
        var r := FindByToken(ledger[..n], token);
        assert forall i :: 0 <= i < n ==> ledger[..n][i] == ledger[i];
        r
  }

  /** `findByTokenAndIsRevokedFalse`: the row holding this token string, only while it is not revoked. */
  function FindByTokenAndIsRevokedFalse(ledger: seq<RefreshRecord>, token: string): (r: Option<nat>)
    ensures r.Some? ==> r.value < |ledger| && ledger[r.value].token == token && !ledger[r.value].isRevoked
    ensures r.None? <==> forall i :: 0 <= i < |ledger| && ledger[i].token == token ==> ledger[i].isRevoked
  {
    if ledger == [] then None
    else
      var n := |ledger| - 1;
      if ledger[n].token == token && !ledger[n].isRevoked then Some(n)
      else
        var r := FindByTokenAndIsRevokedFalse(ledger[..n], token);
        assert forall i :: 0 <= i < n ==> ledger[..n][i] == ledger[i];
        r
  }

  /** No token string is held by two rows. */
  predicate TokensDistinct(ledger: seq<RefreshRecord>) {
    forall i, j :: 0 <= i < j < |ledger| ==> ledger[i].token != ledger[j].token
  }

  /**
   * With distinct token strings, both lookups find the row holding the string,
   * and the second one answers nothing exactly when that row is revoked.
   */
  lemma FindRow(ledger: seq<RefreshRecord>, i: nat)
    requires TokensDistinct(ledger) && i < |ledger|
    ensures FindByToken(ledger, ledger[i].token) == Some(i)
    ensures FindByTokenAndIsRevokedFalse(ledger, ledger[i].token) ==
            if ledger[i].isRevoked then None else Some(i)
  {
  }

  /** `countByUserAndIsRevokedFalse`: how many rows are active for `owner`. */
  function CountByUserAndIsRevokedFalse(ledger: seq<RefreshRecord>, owner: string): (n: nat)
    ensures n == |ActiveSet(ledger, owner)|
  {
    var s := Select(ledger, ActiveOf(owner));
    assert ActiveSet(ledger, owner) == Elems(s);
    CardOfDistinct(s);
    |s|
  }

  /** Appending a row raises its owner's count by one when the row is active, and no other count. */
  lemma CountAppend(ledger: seq<RefreshRecord>, r: RefreshRecord, owner: string)
    ensures CountByUserAndIsRevokedFalse(ledger + [r], owner) ==
            CountByUserAndIsRevokedFalse(ledger, owner) + if Active(r, owner) then 1 else 0
  {
    var n := |ledger|;
    if Active(r, owner) {
      assert ActiveSet(ledger + [r], owner) == ActiveSet(ledger, owner) + {n};
    } else {
      assert ActiveSet(ledger + [r], owner) == ActiveSet(ledger, owner);
    }
  }

  /** Overwriting one row changes a user's count only by that row's change of activity. */
  lemma CountUpdate(ledger: seq<RefreshRecord>, i: nat, r: RefreshRecord, owner: string)
    requires i < |ledger|
    ensures CountByUserAndIsRevokedFalse(ledger[i := r], owner) + (if Active(ledger[i], owner) then 1 else 0) ==
            CountByUserAndIsRevokedFalse(ledger, owner) + (if Active(r, owner) then 1 else 0)
  {
    var before := ActiveSet(ledger, owner);
    var after := ActiveSet(ledger[i := r], owner);
    var rest := before - {i};
    assert after - {i} == rest;
    if Active(ledger[i], owner) {
      assert before == rest + {i};
    } else {
      assert before == rest;
    }
    if Active(r, owner) {
      assert after == rest + {i};
    } else {
      assert after == rest;
    }
  }

  /**
   * `findTopByUserAndIsRevokedFalseOrderByCreatedAtAsc`: an active row of
   * `owner` with the smallest `createdAt`, or nothing when none is active.
   */
  function FindTopByUserAndIsRevokedFalseOrderByCreatedAtAsc(ledger: seq<RefreshRecord>, owner: string): (r: Option<nat>)
    ensures r.None? <==> forall i :: 0 <= i < |ledger| ==> !Active(ledger[i], owner)
    ensures r.Some? ==> r.value < |ledger| && Active(ledger[r.value], owner)
    ensures r.Some? ==> forall i :: 0 <= i < |ledger| && Active(ledger[i], owner) ==>
                          ledger[r.value].createdAt <= ledger[i].createdAt
  {
    if ledger == [] then None
    else
      var n := |ledger| - 1;
      var rest := FindTopByUserAndIsRevokedFalseOrderByCreatedAtAsc(ledger[..n], owner);
      assert forall i :: 0 <= i < n ==> ledger[..n][i] == ledger[i];
      if Active(ledger[n], owner) && (rest.None? || ledger[n].createdAt < ledger[rest.value].createdAt)
      then Some(n)
      else rest
  }

  /** `findByUserAndExpiresAtBeforeAndIsRevokedFalse`: the active rows of `owner` expiring strictly before `before`. */
  function FindByUserAndExpiresAtBeforeAndIsRevokedFalse(ledger: seq<RefreshRecord>, owner: string, before: int): (r: seq<nat>)
    ensures Distinct(r) && InBounds(ledger, r)
    ensures forall i: nat :: i in r <==> i < |ledger| && Active(ledger[i], owner) && ledger[i].expiresAt < before
  {
    Select(ledger, ExpiredActiveOf(owner, before))
  }

  /** Sorted newest first: `createdAt` never increases along `s`. */
  predicate SortedDesc(ledger: seq<RefreshRecord>, s: seq<nat>)
    requires InBounds(ledger, s)
  {
    forall a, b :: 0 <= a < b < |s| ==> ledger[s[a]].createdAt >= ledger[s[b]].createdAt
  }

  function InsertDesc(ledger: seq<RefreshRecord>, x: nat, s: seq<nat>): (r: seq<nat>)
    requires x < |ledger| && InBounds(ledger, s) && SortedDesc(ledger, s)
    ensures InBounds(ledger, r) && SortedDesc(ledger, r)
    ensures |r| == |s| + 1
    ensures forall y :: y in r <==> y == x || y in s
    ensures x !in s && Distinct(s) ==> Distinct(r)
  {
    if s == [] then [x]
    else if ledger[x].createdAt >= ledger[s[0]].createdAt then
      ConsSortedDesc(ledger, x, s);
      ConsDistinct(x, s);
      [x] + s
    else
      var t := InsertDesc(ledger, x, s[1..]);
      assert forall k :: 0 <= k < |t| ==> t[k] == x || t[k] in s[1..];
      ConsSortedDesc(ledger, s[0], t);
      assert s == [s[0]] + s[1..];
      ConsDistinct(s[0], t);
      [s[0]] + t
  }

  lemma ConsSortedDesc(ledger: seq<RefreshRecord>, h: nat, t: seq<nat>)
    requires h < |ledger| && InBounds(ledger, t) && SortedDesc(ledger, t)
    requires t != [] ==> ledger[h].createdAt >= ledger[t[0]].createdAt
    ensures InBounds(ledger, [h] + t) && SortedDesc(ledger, [h] + t)
  {
    var r := [h] + t;
    forall a, b | 0 <= a < b < |r| ensures ledger[r[a]].createdAt >= ledger[r[b]].createdAt {
      if a == 0 {
        assert r[b] == t[b - 1];
        if b > 1 {
          assert ledger[t[0]].createdAt >= ledger[t[b - 1]].createdAt;
        }
      } else {
        assert r[a] == t[a - 1] && r[b] == t[b - 1];
      }
    }
  }

  lemma ConsDistinct(h: nat, t: seq<nat>)
    ensures h !in t && Distinct(t) ==> Distinct([h] + t)
  {
    var r := [h] + t;
    assert forall k :: 1 <= k < |r| ==> r[k] == t[k - 1];
  }

  function SortDesc(ledger: seq<RefreshRecord>, s: seq<nat>): (r: seq<nat>)
    requires InBounds(ledger, s)
    ensures InBounds(ledger, r) && SortedDesc(ledger, r)
    ensures |r| == |s|
    ensures forall y :: y in r <==> y in s
    ensures Distinct(s) ==> Distinct(r)
  {
    if s == [] then []
    else InsertDesc(ledger, s[0], SortDesc(ledger, s[1..]))
  }

  /** `findByUserAndIsRevokedFalseOrderByCreatedAtDesc`: every active row of `owner`, once each, newest first. */
  function FindByUserAndIsRevokedFalseOrderByCreatedAtDesc(ledger: seq<RefreshRecord>, owner: string): (r: seq<nat>)
    ensures InBounds(ledger, r) && SortedDesc(ledger, r) && Distinct(r)
    ensures forall i: nat :: i in r <==> i < |ledger| && Active(ledger[i], owner)
    ensures |r| == CountByUserAndIsRevokedFalse(ledger, owner)
  {
    SortDesc(ledger, Select(ledger, ActiveOf(owner)))
  }

  function Elems(s: seq<nat>): set<nat> {
    set x | x in s
  }

  /** A sequence without repetitions has as many distinct elements as it is long. */
  lemma {:induction false} CardOfDistinct(s: seq<nat>)
    requires Distinct(s) || Increasing(s)
    ensures |Elems(s)| == |s|
  {
    if s != [] {
      var tail := s[1..];
      assert Distinct(tail) || Increasing(tail);
      CardOfDistinct(tail);
      var whole := Elems(s);
      var rest := Elems(tail);
      assert s[0] !in rest;
      assert whole == rest + {s[0]};
      assert |whole| == |rest| + 1;
    } else {
      assert Elems(s) == {};
    }
  }

  /** The elements of a sequence are no more than its length. */
  lemma {:induction false} CardAtMostLength(s: seq<nat>)
    ensures |Elems(s)| <= |s|
  {
    if s != [] {
      CardAtMostLength(s[1..]);
      var whole := Elems(s);
      var rest := Elems(s[1..]);
      assert whole == rest + {s[0]};
      assert |whole| <= |rest| + 1;
    } else {
      assert Elems(s) == {};
    }
  }
}
